/**
 * The task list held by the `App` component: an ordered list of tasks and
 * the draft typed into the input field, and the three commands that change
 * them (add the draft as a task, flip a task's completion, delete a task).
 *
 * The list computations are pure functions over `seq<Task>`; the component
 * state that the commands replace is the class `Board` at the end.
 */
module TaskBoard {
  import opened Text

  /** Task ids are the millisecond timestamps the component reads from the
      clock; here they are whatever integer the caller supplies. */
  type Id = int

  datatype Task = Task(id: Id, text: string, completed: bool)

  // ---------------------------------------------------------------------
  // Invariants of the list

  /** The text a task may carry: non-empty, with no white space at either end. */
  predicate ValidText(s: string) {
    s != [] && IsTrimmed(s)
  }

  predicate TextsValid(tasks: seq<Task>) {
    forall i :: 0 <= i < |tasks| ==> ValidText(tasks[i].text)
  }

  predicate DistinctIds(tasks: seq<Task>) {
    forall i, j :: 0 <= i < j < |tasks| ==> tasks[i].id != tasks[j].id
  }

  /** No task in the list has id `id`. */
  predicate IdAbsent(tasks: seq<Task>, id: Id) {
    forall i :: 0 <= i < |tasks| ==> tasks[i].id != id
  }

  // ---------------------------------------------------------------------
  // Adding the draft

  /** The list after submitting `draft` with the new task's id `id`: a
      draft that is empty or white space only adds nothing; otherwise the
      trimmed draft is appended as a task that is not completed. */
  function Added(tasks: seq<Task>, draft: string, id: Id): (r: seq<Task>)
    ensures AllWhitespace(draft) ==> r == tasks
    ensures !AllWhitespace(draft) ==>
              && |r| == |tasks| + 1
              && r[..|tasks|] == tasks
              && r[|tasks|].id == id
              && r[|tasks|].text == Trim(draft)
              && !r[|tasks|].completed
  {
    var text := Trim(draft);
    if text == [] then tasks else tasks + [Task(id, text, false)]
  }

  /** A non-blank draft appends exactly one task at the end. */
  lemma AddedNonBlank(tasks: seq<Task>, draft: string, id: Id)
    requires !AllWhitespace(draft)
    ensures Added(tasks, draft, id) == tasks + [Task(id, Trim(draft), false)]
  {
    var r := Added(tasks, draft, id);
    assert r == r[..|tasks|] + [r[|tasks|]];
  }

  /** Adding keeps every text non-empty and trimmed. */
  lemma AddedTextsValid(tasks: seq<Task>, draft: string, id: Id)
    requires TextsValid(tasks)
    ensures TextsValid(Added(tasks, draft, id))
  {
    var r := Added(tasks, draft, id);
    forall i | 0 <= i < |r|
      ensures ValidText(r[i].text)
    {
      if i < |tasks| {
        assert r[i] == r[..|tasks|][i];
      }
    }
  }

  /** Adding with an id no task already has keeps the ids distinct. */
  lemma AddedDistinctIds(tasks: seq<Task>, draft: string, id: Id)
    requires DistinctIds(tasks) && IdAbsent(tasks, id)
    ensures DistinctIds(Added(tasks, draft, id))
  {
    var r := Added(tasks, draft, id);
    forall i, j | 0 <= i < j < |r|
      ensures r[i].id != r[j].id
    {
      assert r[i] == r[..|tasks|][i];
      if j < |tasks| {
        assert r[j] == r[..|tasks|][j];
      }
    }
  }

  /** Submitting a series of drafts, each with its id, in order. */
  function AddedAll(tasks: seq<Task>, drafts: seq<(string, Id)>): seq<Task>
    decreases |drafts|
  {
    if drafts == [] then tasks
    else AddedAll(Added(tasks, drafts[0].0, drafts[0].1), drafts[1..])
  }

  /** The tasks a series of drafts should produce: one per non-blank draft,
      in submission order; blank drafts produce nothing. */
  function NewTasks(drafts: seq<(string, Id)>): seq<Task> {
    if drafts == [] then []
    else
      var text := Trim(drafts[0].0);
      (if text == [] then [] else [Task(drafts[0].1, text, false)]) + NewTasks(drafts[1..])
  }

  /** Submitting a series of drafts appends, after the old tasks, one task
      per non-blank draft, in the order the drafts were submitted. */
  lemma {:induction false} AddedAllInOrder(tasks: seq<Task>, drafts: seq<(string, Id)>)
    ensures AddedAll(tasks, drafts) == tasks + NewTasks(drafts)
    decreases |drafts|
  {
    if drafts != [] {
      var text := Trim(drafts[0].0);
      var made := if text == [] then [] else [Task(drafts[0].1, text, false)];
      var next := Added(tasks, drafts[0].0, drafts[0].1);
      assert next == tasks + made;
      AddedAllInOrder(next, drafts[1..]);
      calc {
        AddedAll(tasks, drafts);
        AddedAll(next, drafts[1..]);
        (tasks + made) + NewTasks(drafts[1..]);
        tasks + (made + NewTasks(drafts[1..]));
        tasks + NewTasks(drafts);
      }
    } else {
      assert tasks + [] == tasks;
    }
  }

  // ---------------------------------------------------------------------
  // Toggling completion

  function Flip(t: Task): Task {
    t.(completed := !t.completed)
  }

  /** The list with `completed` flipped on every task whose id is `id`
      (ids are not guaranteed unique, so that may be several tasks). */
  function Toggled(tasks: seq<Task>, id: Id): (r: seq<Task>)
    ensures |r| == |tasks|
    ensures forall i :: 0 <= i < |tasks| ==>
              && r[i].id == tasks[i].id
              && r[i].text == tasks[i].text
              && (r[i].completed <==> (tasks[i].completed != (tasks[i].id == id)))
    ensures forall i :: 0 <= i < |tasks| && tasks[i].id != id ==> r[i] == tasks[i]
  {
    if tasks == [] then []
    else [if tasks[0].id == id then Flip(tasks[0]) else tasks[0]] + Toggled(tasks[1..], id)
  }

  /** Toggling the same id twice gives back the original list. */
  lemma {:induction false} ToggledTwice(tasks: seq<Task>, id: Id)
    ensures Toggled(Toggled(tasks, id), id) == tasks
  {
    var r := Toggled(Toggled(tasks, id), id);
    forall i | 0 <= i < |tasks|
      ensures r[i] == tasks[i]
    {
      assert r[i].completed == tasks[i].completed;
    }
  }

  /** Toggling an id no task has changes nothing. */
  lemma ToggledAbsent(tasks: seq<Task>, id: Id)
    requires IdAbsent(tasks, id)
    ensures Toggled(tasks, id) == tasks
  {
  }

  /** Toggling never touches texts or ids, so both invariants survive it. */
  lemma ToggledInvariants(tasks: seq<Task>, id: Id)
    ensures TextsValid(tasks) ==> TextsValid(Toggled(tasks, id))
    ensures DistinctIds(tasks) ==> DistinctIds(Toggled(tasks, id))
  {
  }

  // ---------------------------------------------------------------------
  // Deleting

  /** The list without the tasks whose id is `id`. */
  function Deleted(tasks: seq<Task>, id: Id): (r: seq<Task>)
    ensures |r| <= |tasks|
    ensures forall i :: 0 <= i < |r| ==> r[i].id != id
  {
    if tasks == [] then []
    else (if tasks[0].id == id then [] else [tasks[0]]) + Deleted(tasks[1..], id)
  }

  /** A task survives deletion exactly when it was in the list and does not
      carry the deleted id. */
  lemma {:induction false} DeletedMembers(tasks: seq<Task>, id: Id, t: Task)
    ensures t in Deleted(tasks, id) <==> t in tasks && t.id != id
  {
    if tasks != [] {
      DeletedMembers(tasks[1..], id, t);
      var head := if tasks[0].id == id then [] else [tasks[0]];
      assert Deleted(tasks, id) == head + Deleted(tasks[1..], id);
      assert tasks == [tasks[0]] + tasks[1..];
    }
  }

  /** `sub` is `s` with some of its elements left out, the rest in order. */
  ghost predicate IsSubsequence(sub: seq<Task>, s: seq<Task>)
    decreases |s|
  {
    if sub == [] then true
    else if s == [] then false
    else (sub[0] == s[0] && IsSubsequence(sub[1..], s[1..])) || IsSubsequence(sub, s[1..])
  }

  /** Deleting keeps the remaining tasks in their original relative order. */
  lemma {:induction false} DeletedIsSubsequence(tasks: seq<Task>, id: Id)
    ensures IsSubsequence(Deleted(tasks, id), tasks)
  {
    if tasks != [] {
      DeletedIsSubsequence(tasks[1..], id);
      var rest := Deleted(tasks[1..], id);
      if tasks[0].id == id {
        assert Deleted(tasks, id) == rest;
      } else {
        assert Deleted(tasks, id) == [tasks[0]] + rest;
        assert ([tasks[0]] + rest)[1..] == rest;
      }
    }
  }

  /** Deleting distributes over concatenation (it is a filter). */
  lemma {:induction false} DeletedAppend(a: seq<Task>, b: seq<Task>, id: Id)
    ensures Deleted(a + b, id) == Deleted(a, id) + Deleted(b, id)
  {
    if a != [] {
      assert (a + b)[1..] == a[1..] + b;
      DeletedAppend(a[1..], b, id);
      var head := if a[0].id == id then [] else [a[0]];
      calc {
        Deleted(a + b, id);
        head + Deleted(a[1..] + b, id);
        head + (Deleted(a[1..], id) + Deleted(b, id));
        (head + Deleted(a[1..], id)) + Deleted(b, id);
        Deleted(a, id) + Deleted(b, id);
      }
    } else {
      assert a + b == b;
    }
  }

  /** Deleting an id no task has changes nothing. */
  lemma {:induction false} DeletedAbsent(tasks: seq<Task>, id: Id)
    requires IdAbsent(tasks, id)
    ensures Deleted(tasks, id) == tasks
  {
    if tasks != [] {
      DeletedAbsent(tasks[1..], id);
    }
  }

  /** Dropping the first task keeps the ids distinct. */
  lemma DistinctIdsTail(tasks: seq<Task>)
    requires DistinctIds(tasks) && tasks != []
    ensures DistinctIds(tasks[1..])
    ensures IdAbsent(tasks[1..], tasks[0].id)
  {
    var rest := tasks[1..];
    forall i, j | 0 <= i < j < |rest| ensures rest[i].id != rest[j].id {
      assert rest[i] == tasks[i + 1] && rest[j] == tasks[j + 1];
    }
    forall i | 0 <= i < |rest| ensures rest[i].id != tasks[0].id {
      assert rest[i] == tasks[i + 1];
    }
  }

  /** With distinct ids, deleting the id of the task at position `k` removes
      exactly that task: one shorter, everything else in place. */
  lemma {:induction false} DeletedAt(tasks: seq<Task>, k: nat, id: Id)
    requires DistinctIds(tasks)
    requires k < |tasks| && tasks[k].id == id
    ensures Deleted(tasks, id) == tasks[..k] + tasks[k + 1..]
    ensures |Deleted(tasks, id)| == |tasks| - 1
  {
    var rest := tasks[1..];
    DistinctIdsTail(tasks);
    if k == 0 {
      DeletedAbsent(rest, id);
      assert Deleted(tasks, id) == [] + Deleted(rest, id);
      assert tasks[..k] + tasks[k + 1..] == rest;
    } else {
      DeletedAt(rest, k - 1, id);
      assert Deleted(tasks, id) == [tasks[0]] + Deleted(rest, id);
      assert rest[..k - 1] == tasks[1..k] && rest[k..] == tasks[k + 1..];
      assert tasks[..k] == [tasks[0]] + tasks[1..k];
    }
  }

  /** Deleting keeps every text non-empty and trimmed. */
  lemma DeletedTextsValid(tasks: seq<Task>, id: Id)
    requires TextsValid(tasks)
    ensures TextsValid(Deleted(tasks, id))
  {
    var r := Deleted(tasks, id);
    forall i | 0 <= i < |r|
      ensures ValidText(r[i].text)
    {
      DeletedMembers(tasks, id, r[i]);
      var j :| 0 <= j < |tasks| && tasks[j] == r[i];
    }
  }

  /** Deleting keeps the ids distinct. */
  lemma {:induction false} DeletedDistinctIds(tasks: seq<Task>, id: Id)
    requires DistinctIds(tasks)
    ensures DistinctIds(Deleted(tasks, id))
  {
    if tasks != [] {
      var rest := tasks[1..];
      DistinctIdsTail(tasks);
      DeletedDistinctIds(rest, id);
      var dr := Deleted(rest, id);
      if tasks[0].id != id {
        var r := Deleted(tasks, id);
        assert r == [tasks[0]] + dr;
        forall i, j | 0 <= i < j < |r|
          ensures r[i].id != r[j].id
        {
          if i == 0 {
            assert r[j] == dr[j - 1];
            DeletedMembers(rest, id, r[j]);
          } else {
            assert r[i] == dr[i - 1] && r[j] == dr[j - 1];
          }
        }
      } else {
        assert Deleted(tasks, id) == dr;
      }
    }
  }

  // ---------------------------------------------------------------------
  // The component state

  /** The state the `App` component keeps: the list of tasks and the draft. */
  class Board {
    var tasks: seq<Task>
    var draft: string

    /** Every task's text is non-empty and trimmed. */
    ghost predicate Valid()
      reads this
    {
      TextsValid(tasks)
    }

    /** A fresh board: no tasks and an empty draft. */
    constructor ()
      ensures Valid()
      ensures tasks == [] && draft == ""
    {
      tasks := [];
      draft := "";
    }

    /** Typing in the input field replaces the draft. */
    method SetDraft(s: string)
      requires Valid()
      modifies this
      ensures Valid()
      ensures draft == s && tasks == old(tasks)
    {
      draft := s;
    }

    /** Submitting the form, the new task taking id `id`. A blank draft
        changes nothing; otherwise the trimmed draft becomes the last task
        and the draft is cleared. */
    method AddTask(id: Id)
      requires Valid()
      modifies this
      ensures Valid()
      ensures tasks == Added(old(tasks), old(draft), id)
      ensures AllWhitespace(old(draft)) ==> draft == old(draft)
      ensures !AllWhitespace(old(draft)) ==> draft == ""
      ensures DistinctIds(old(tasks)) && IdAbsent(old(tasks), id) ==> DistinctIds(tasks)
    {
      var text := Trim(draft);
      AddedTextsValid(tasks, draft, id);
      if DistinctIds(tasks) && IdAbsent(tasks, id) {
        AddedDistinctIds(tasks, draft, id);
      }
      if text != [] {
        tasks := tasks + [Task(id, text, false)];
        draft := "";
      }
    }

    /** Clicking a task's completion control. */
    method ToggleTask(id: Id)
      requires Valid()
      modifies this
      ensures Valid()
      ensures tasks == Toggled(old(tasks), id) && draft == old(draft)
      ensures DistinctIds(old(tasks)) ==> DistinctIds(tasks)
    {
      ToggledInvariants(tasks, id);
      tasks := Toggled(tasks, id);
    }

    /** Clicking a task's delete control. */
    method DeleteTask(id: Id)
      requires Valid()
      modifies this
      ensures Valid()
      ensures tasks == Deleted(old(tasks), id) && draft == old(draft)
      ensures DistinctIds(old(tasks)) ==> DistinctIds(tasks)
    {
      DeletedTextsValid(tasks, id);
      if DistinctIds(tasks) {
        DeletedDistinctIds(tasks, id);
      }
      tasks := Deleted(tasks, id);
    }
  }

  // ---------------------------------------------------------------------
  // Worked scenarios

  /** Submitting a non-blank text padded with white space to an empty list
      gives one open task carrying the text without the padding. */
  lemma AddPadded(before: string, text: string, after: string, id: Id)
    requires AllWhitespace(before) && AllWhitespace(after) && ValidText(text)
    ensures Added([], before + text + after, id) == [Task(id, text, false)]
  {
    TrimPadded(before, text, after);
    assert Trim(before + text + after) != [];
  }

  /** The list computations of the scenario below: two additions to an
      empty list, then toggling the first and deleting the second. */
  lemma AddTwo(draft1: string, draft2: string, first: Id, second: Id)
    requires !AllWhitespace(draft1) && !AllWhitespace(draft2)
    ensures Added(Added([], draft1, first), draft2, second)
            == [Task(first, Trim(draft1), false), Task(second, Trim(draft2), false)]
  {
    var l1 := Added([], draft1, first);
    assert l1 == [Task(first, Trim(draft1), false)];
  }

  lemma ToggleFirstDeleteSecond(a: Task, b: Task)
    requires a.id != b.id
    ensures Deleted(Toggled([a, b], a.id), b.id) == [Flip(a)]
  {
    var l := Toggled([a, b], a.id);
    assert l[0] == Flip(a);
    assert l == [Flip(a), b];
    DeletedAt(l, 1, b.id);
    assert l[..1] + l[2..] == [Flip(a)];
  }

  /** Start empty, add two tasks (say "Write report", then "Call dentist"),
      complete the first, delete the second: only the first is left, now
      completed. */
  method Scenario(draft1: string, draft2: string, first: Id, second: Id) returns (final: seq<Task>)
    requires !AllWhitespace(draft1) && !AllWhitespace(draft2)
    requires first != second
    ensures final == [Task(first, Trim(draft1), true)]
  {
    var board := new Board();
    board.SetDraft(draft1);
    board.AddTask(first);
    board.SetDraft(draft2);
    board.AddTask(second);
    board.ToggleTask(first);
    board.DeleteTask(second);
    AddTwo(draft1, draft2, first, second);
    ToggleFirstDeleteSecond(Task(first, Trim(draft1), false), Task(second, Trim(draft2), false));
    final := board.tasks;
  }
}
