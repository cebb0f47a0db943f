/**
 * The string trimming that the task board applies to a draft before it
 * becomes a task: `String.prototype.trim`, which strips leading and
 * trailing white space and line terminators and keeps everything between.
 */
module Text {

  /** The characters `trim` strips: the ECMAScript WhiteSpace and
      LineTerminator code points (TAB, LF, VT, FF, CR, the Unicode space
      separators, LS, PS and the byte order mark). */
  const Whitespace: set<char> := {
    '\t', '\n', '\U{B}', '\U{C}', '\r', ' ', '\U{A0}', '\U{1680}',
    '\U{2000}', '\U{2001}', '\U{2002}', '\U{2003}', '\U{2004}', '\U{2005}',
    '\U{2006}', '\U{2007}', '\U{2008}', '\U{2009}', '\U{200A}',
    '\U{2028}', '\U{2029}', '\U{202F}', '\U{205F}', '\U{3000}', '\U{FEFF}'
  }

  predicate IsWhitespace(c: char) {
    c in Whitespace
  }

  /** Every character of `s` is white space (this includes the empty string). */
  predicate AllWhitespace(s: string) {
    forall i :: 0 <= i < |s| ==> IsWhitespace(s[i])
  }

  /** `s` neither starts nor ends with white space. */
  predicate IsTrimmed(s: string) {
    s == [] || (!IsWhitespace(s[0]) && !IsWhitespace(s[|s| - 1]))
  }

  /** `String.prototype.trim`: strips the white space at the front, then the
      white space at the back. The result has no white space at either end,
      and is empty exactly when `s` is nothing but white space. */
  function Trim(s: string): (r: string)
    ensures IsTrimmed(r)
    ensures r == [] <==> AllWhitespace(s)
    decreases |s|
  {
    if s == [] then []
    else if IsWhitespace(s[0]) then
      assert AllWhitespace(s) <==> AllWhitespace(s[1..]) by {
        assert forall i :: 0 < i < |s| ==> s[i] == s[1..][i - 1];
      }
      Trim(s[1..])
    else if IsWhitespace(s[|s| - 1]) then
      assert s[..|s| - 1][0] == s[0];
      Trim(s[..|s| - 1])
    else s
  }

  /** `r` is the slice `s[lo..hi]` of `s`, and every character of `s`
      outside that slice is white space. */
  ghost predicate IsCore(r: string, s: string) {
    exists lo, hi :: 0 <= lo <= hi <= |s| && r == s[lo..hi]
                     && (forall i :: 0 <= i < lo ==> IsWhitespace(s[i]))
                     && (forall i :: hi <= i < |s| ==> IsWhitespace(s[i]))
  }

  /** What `Trim` keeps is the slice of `s` between a white-space prefix and
      a white-space suffix: nothing inside the text is touched. */
  lemma {:induction false} TrimIsSlice(s: string)
    ensures IsCore(Trim(s), s)
    decreases |s|
  {
    if s == [] {
      assert Trim(s) == s[0..0];
    } else if IsWhitespace(s[0]) {
      TrimIsSlice(s[1..]);
      CoreFront(Trim(s[1..]), s);
    } else if IsWhitespace(s[|s| - 1]) {
      TrimIsSlice(s[..|s| - 1]);
      CoreBack(Trim(s[..|s| - 1]), s);
    } else {
      assert Trim(s) == s[0..|s|];
    }
  }

  /** A core of `s` without its leading white-space character is a core of `s`. */
  lemma CoreFront(r: string, s: string)
    requires s != [] && IsWhitespace(s[0])
    requires IsCore(r, s[1..])
    ensures IsCore(r, s)
  {
    var t := s[1..];
    var lo, hi :| 0 <= lo <= hi <= |t| && r == t[lo..hi]
                  && (forall i :: 0 <= i < lo ==> IsWhitespace(t[i]))
                  && (forall i :: hi <= i < |t| ==> IsWhitespace(t[i]));
    var lo', hi' := lo + 1, hi + 1;
    SliceOfTail(s, lo, hi);
    forall i | 0 <= i < lo' ensures IsWhitespace(s[i]) {
      if i > 0 { assert s[i] == t[i - 1]; }
    }
    forall i | hi' <= i < |s| ensures IsWhitespace(s[i]) {
      assert s[i] == t[i - 1];
    }
  }

  /** Slicing the tail of `s` is slicing `s` one position further on. */
  lemma SliceOfTail(s: string, lo: nat, hi: nat)
    requires s != [] && lo <= hi <= |s| - 1
    ensures s[1..][lo..hi] == s[lo + 1..hi + 1]
  {
    var t := s[1..];
    assert |t[lo..hi]| == |s[lo + 1..hi + 1]|;
    forall i | 0 <= i < hi - lo ensures t[lo..hi][i] == s[lo + 1..hi + 1][i] {
      assert t[lo..hi][i] == t[lo + i] == s[lo + 1 + i];
    }
  }

  /** A core of `s` without its trailing white-space character is a core of `s`. */
  lemma CoreBack(r: string, s: string)
    requires s != [] && IsWhitespace(s[|s| - 1])
    requires IsCore(r, s[..|s| - 1])
    ensures IsCore(r, s)
  {
    var t := s[..|s| - 1];
    var lo, hi :| 0 <= lo <= hi <= |t| && r == t[lo..hi]
                  && (forall i :: 0 <= i < lo ==> IsWhitespace(t[i]))
                  && (forall i :: hi <= i < |t| ==> IsWhitespace(t[i]));
    assert r == s[lo..hi];
    forall i | 0 <= i < lo ensures IsWhitespace(s[i]) {
      assert s[i] == t[i];
    }
    forall i | hi <= i < |s| ensures IsWhitespace(s[i]) {
      if i < |t| { assert s[i] == t[i]; }
    }
  }

  /** Trimming a trimmed string padded with white space on both sides gives
      the string back. Together with `TrimIsSlice`, this pins `Trim` down
      completely. */
  lemma {:induction false} TrimPadded(before: string, s: string, after: string)
    requires AllWhitespace(before) && AllWhitespace(after)
    requires IsTrimmed(s)
    ensures Trim(before + s + after) == s
    decreases |before| + |after|
  {
    var p := before + s + after;
    if s == [] {
      assert AllWhitespace(p) by {
        forall i | 0 <= i < |p| ensures IsWhitespace(p[i]) {
          if i < |before| { assert p[i] == before[i]; }
          else { assert p[i] == after[i - |before|]; }
        }
      }
    } else if before != [] {
      assert p[0] == before[0];
      assert p[1..] == before[1..] + s + after;
      TrimPadded(before[1..], s, after);
    } else if after != [] {
      assert p[0] == s[0];
      assert p[|p| - 1] == after[|after| - 1];
      assert p[..|p| - 1] == before + s + after[..|after| - 1];
      TrimPadded(before, s, after[..|after| - 1]);
    } else {
      assert p == s;
    }
  }

  /** A string that is already trimmed is left alone, so trimming twice is
      the same as trimming once. */
  lemma TrimTrimmed(s: string)
    requires IsTrimmed(s)
    ensures Trim(s) == s
  {
  }

  lemma TrimIdempotent(s: string)
    ensures Trim(Trim(s)) == Trim(s)
  {
    TrimTrimmed(Trim(s));
  }
}
