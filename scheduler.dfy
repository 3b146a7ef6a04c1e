/** The task scheduler: an in-place list of `Task` objects with operations to
    append, complete one, complete all, and render the list as text. */
module Scheduler {
  import opened Decimal
  import opened Tasks

  /** The observable state of one task at one moment. */
  datatype TaskView = TaskView(id: string, desc: string, completed: bool)

  // ---------------------------------------------------------------------------
  // The list as a value: what each mutation does to it

  /** Completing the task at `index`; an index outside the list changes nothing. */
  function MarkCompleted(vs: seq<TaskView>, index: int): (r: seq<TaskView>)
    ensures |r| == |vs|
    ensures forall k :: 0 <= k < |vs| ==> r[k].id == vs[k].id && r[k].desc == vs[k].desc
    ensures forall k :: 0 <= k < |vs| ==> r[k].completed == (vs[k].completed || k == index)
    ensures !(0 <= index < |vs|) ==> r == vs
  {
    if 0 <= index < |vs| then vs[index := vs[index].(completed := true)] else vs
  }

  /** Completing every task, as `forEach` does one element at a time. */
  function CompleteAll(vs: seq<TaskView>): (r: seq<TaskView>)
    ensures |r| == |vs|
    ensures forall k :: 0 <= k < |vs| ==> r[k] == vs[k].(completed := true)
  {
    if vs == [] then [] else CompleteAll(vs[..|vs| - 1]) + [vs[|vs| - 1].(completed := true)]
  }

  lemma CompleteAllIdempotent(vs: seq<TaskView>)
    ensures CompleteAll(CompleteAll(vs)) == CompleteAll(vs)
  {
  }

  /** Once everything is complete, completing one task more changes nothing. */
  lemma MarkAfterCompleteAll(vs: seq<TaskView>, index: int)
    ensures MarkCompleted(CompleteAll(vs), index) == CompleteAll(vs)
  {
  }

  /** Completing one task first makes no difference to completing all. */
  lemma CompleteAllAbsorbsMark(vs: seq<TaskView>, index: int)
    ensures CompleteAll(MarkCompleted(vs, index)) == CompleteAll(vs)
  {
  }

  // ---------------------------------------------------------------------------
  // Rendering

  function Marker(completed: bool): string {
    if completed then "[X]" else "[ ]"
  }

  /** The line of the task numbered `k` (counting from 1). */
  function Line(k: nat, v: TaskView): string {
    NatToString(k) + ". " + Marker(v.completed) + " " + v.desc
  }

  /** The `map` step of `listTasks`: one line per task, numbered from 1 in list order. */
  function Lines(vs: seq<TaskView>): (ls: seq<string>)
    ensures |ls| == |vs|
  {
    seq(|vs|, k requires 0 <= k < |vs| => Line(k + 1, vs[k]))
  }

  /** `Array.prototype.join`: the strings with `sep` between neighbours. */
  function Join(ls: seq<string>, sep: string): string {
    if |ls| == 0 then "" else if |ls| == 1 then ls[0] else ls[0] + sep + Join(ls[1..], sep)
  }

  /** `String.prototype.split` on a single character: the maximal pieces of `s`
      free of `c`, one more than the number of occurrences of `c`. */
  function Split(s: string, c: char): (r: seq<string>)
    ensures |r| >= 1
  {
    if s == [] then [""]
    else
      var rest := Split(s[1..], c);
      if s[0] == c then [""] + rest else [[s[0]] + rest[0]] + rest[1..]
  }

  /** The text `listTasks` returns: a header, then the lines joined by newlines. */
  function Listing(vs: seq<TaskView>): string {
    "Tasks:\n" + Join(Lines(vs), "\n")
  }

  lemma {:induction false} JoinAppend(ls: seq<string>, l: string, sep: string)
    ensures Join(ls + [l], sep) == if ls == [] then l else Join(ls, sep) + sep + l
    decreases |ls|
  {
    if |ls| >= 2 {
      assert (ls + [l])[1..] == ls[1..] + [l];
      JoinAppend(ls[1..], l, sep);
    } else if |ls| == 1 {
      assert (ls + [l])[1..] == [l];
    }
  }

  /** Adding a task extends the listing by exactly one line and leaves the
      text before it alone; the first line follows the header directly. */
  lemma ListingAppend(vs: seq<TaskView>, v: TaskView)
    ensures Listing(vs + [v]) ==
            Listing(vs) + (if vs == [] then "" else "\n") + Line(|vs| + 1, v)
  {
    assert Lines(vs + [v]) == Lines(vs) + [Line(|vs| + 1, v)];
    JoinAppend(Lines(vs), Line(|vs| + 1, v), "\n");
  }

  /** An empty list renders as the header followed by a newline. */
  lemma ListingEmpty()
    ensures Listing([]) == "Tasks:\n"
  {
  }

  /** Completing the task at `index` gives its line the `[X]` marker and leaves every other line alone. */
  lemma LinesMarkCompleted(vs: seq<TaskView>, index: int)
    requires 0 <= index < |vs|
    ensures Lines(MarkCompleted(vs, index)) == Lines(vs)[index := Line(index + 1, vs[index].(completed := true))]
  {
    var after := MarkCompleted(vs, index);
    var target := Lines(vs)[index := Line(index + 1, vs[index].(completed := true))];
    forall k | 0 <= k < |vs| ensures Lines(after)[k] == target[k] {
      LineAfterMark(vs, index, k);
    }
    assert Lines(after) == target;
  }

  lemma LineAfterMark(vs: seq<TaskView>, index: int, k: nat)
    requires 0 <= index < |vs| && k < |vs|
    ensures Lines(MarkCompleted(vs, index))[k] ==
            if k == index then Line(k + 1, vs[k].(completed := true)) else Lines(vs)[k]
  {
    var after := MarkCompleted(vs, index);
    assert after[k] == if k == index then vs[k].(completed := true) else vs[k];
  }

  lemma {:induction false} SplitFree(a: string, c: char)
    requires c !in a
    ensures Split(a, c) == [a]
    decreases |a|
  {
    if a != [] {
      SplitFree(a[1..], c);
      assert [a[0]] + a[1..] == a;
    }
  }

  lemma {:induction false} SplitAt(a: string, c: char, b: string)
    requires c !in a
    ensures Split(a + [c] + b, c) == [a] + Split(b, c)
    decreases |a|
  {
    var s := a + [c] + b;
    if a == [] {
      assert s[1..] == b;
    } else {
      assert s[1..] == a[1..] + [c] + b;
      SplitAt(a[1..], c, b);
      assert [a[0]] + a[1..] == a;
    }
  }

  /** Splitting undoes joining, as long as no piece contains the separator. */
  lemma {:induction false} SplitJoin(ls: seq<string>, c: char)
    requires |ls| >= 1
    requires forall k :: 0 <= k < |ls| ==> c !in ls[k]
    ensures Split(Join(ls, [c]), c) == ls
    decreases |ls|
  {
    if |ls| == 1 {
      SplitFree(ls[0], c);
    } else {
      SplitJoin(ls[1..], c);
      SplitAt(ls[0], c, Join(ls[1..], [c]));
      assert [ls[0]] + ls[1..] == ls;
    }
  }

  lemma LineHasNoNewline(k: nat, v: TaskView)
    requires '\n' !in v.desc
    ensures '\n' !in Line(k, v)
  {
  }

  lemma LinesHaveNoNewline(vs: seq<TaskView>)
    requires forall k :: 0 <= k < |vs| ==> '\n' !in vs[k].desc
    ensures forall k :: 0 <= k < |vs| ==> '\n' !in Lines(vs)[k]
  {
    forall k | 0 <= k < |vs| ensures '\n' !in Lines(vs)[k] {
      LineHasNoNewline(k + 1, vs[k]);
    }
  }

  /** Reading the listing back line by line yields the header and then exactly
      the numbered task lines, provided no description holds a newline. */
  lemma ListingLines(vs: seq<TaskView>)
    requires |vs| >= 1
    requires forall k :: 0 <= k < |vs| ==> '\n' !in vs[k].desc
    ensures Split(Listing(vs), '\n') == ["Tasks:"] + Lines(vs)
  {
    LinesHaveNoNewline(vs);
    ListingOf(Lines(vs));
  }

  lemma ListingOf(ls: seq<string>)
    requires |ls| >= 1
    requires forall k :: 0 <= k < |ls| ==> '\n' !in ls[k]
    ensures Split("Tasks:\n" + Join(ls, "\n"), '\n') == ["Tasks:"] + ls
  {
    var body := Join(ls, "\n");
    assert "Tasks:\n" == "Tasks:" + ['\n'];
    assert "Tasks:\n" + body == "Tasks:" + ['\n'] + body;
    HeaderThenJoin("Tasks:", ls, '\n');
  }

  lemma HeaderThenJoin(header: string, ls: seq<string>, c: char)
    requires c !in header && |ls| >= 1
    requires forall k :: 0 <= k < |ls| ==> c !in ls[k]
    ensures Split(header + [c] + Join(ls, [c]), c) == [header] + ls
  {
    SplitJoin(ls, c);
    SplitAt(header, c, Join(ls, [c]));
  }

  // ---------------------------------------------------------------------------
  // The scheduler object

  /** The state of every task in `ts`, in order. */
  function Snapshot(ts: seq<Task>): (vs: seq<TaskView>)
    reads ts
    ensures |vs| == |ts|
    ensures forall k :: 0 <= k < |ts| ==> vs[k] == TaskView(ts[k].id, ts[k].desc, ts[k].completed)
  {
    if ts == [] then []
    else Snapshot(ts[..|ts| - 1]) + [TaskView(ts[|ts| - 1].id, ts[|ts| - 1].desc, ts[|ts| - 1].completed)]
  }

  class TaskScheduler {
    var taskList: seq<Task>

    /** Every task object occurs once, so updating one leaves the others alone. */
    ghost predicate Valid()
      reads this
    {
      forall i, j :: 0 <= i < j < |taskList| ==> taskList[i] != taskList[j]
    }

    function View(): seq<TaskView>
      reads this, taskList
    {
      Snapshot(taskList)
    }

    /** `taskScheduler()`: a fresh scheduler owns an empty list. */
    constructor ()
      ensures Valid() && taskList == []
    {
      taskList := [];
    }

    /** `addTask`: appends one new, uncompleted task; earlier tasks are untouched.
        `id` stands for the UUID the new `Task` draws. */
    method AddTask(id: string, desc: string)
      requires Valid()
      modifies this
      ensures Valid()
      ensures |taskList| == |old(taskList)| + 1 && taskList[..|old(taskList)|] == old(taskList)
      ensures fresh(taskList[|taskList| - 1])
      ensures View() == old(View()) + [TaskView(id, desc, false)]
    {
      var t := new Task(id, desc);
      taskList := taskList + [t];
      assert taskList[..|taskList| - 1] == old(taskList);
    }

    /** `markTaskAsCompleted`: completes the task at `index` when it lies inside
        the list and silently does nothing otherwise. */
    method MarkTaskAsCompleted(index: int)
      requires Valid()
      modifies taskList
      ensures Valid() && taskList == old(taskList)
      ensures View() == MarkCompleted(old(View()), index)
    {
      if 0 <= index < |taskList| {
        taskList[index].SetCompleted(true);
      }
    }

    /** `completeAllTasks`: sets every task's flag, one task at a time. */
    method CompleteAllTasks()
      requires Valid()
      modifies taskList
      ensures Valid() && taskList == old(taskList)
      ensures View() == CompleteAll(old(View()))
    {
      var i := 0;
      while i < |taskList|
        invariant 0 <= i <= |taskList|
        invariant forall k :: 0 <= k < i ==> taskList[k].completed
        invariant forall k :: i <= k < |taskList| ==> taskList[k].completed == old(taskList[k].completed)
      {
        taskList[i].SetCompleted(true);
        i := i + 1;
      }
      assert forall k :: 0 <= k < |taskList| ==> View()[k] == old(View())[k].(completed := true);
    }

    /** `listTasks`: a function of the current state, so it changes nothing. */
    function ListTasks(): string
      reads this, taskList
    {
      Listing(View())
    }
  }

  lemma FirstLine(v: TaskView)
    requires v.desc == "Task 1" && !v.completed
    ensures Line(1, v) == "1. [ ] Task 1"
  {
    assert NatToString(1) == "1";
  }

  lemma SecondLine(v: TaskView)
    requires v.desc == "Task 2" && !v.completed
    ensures Line(2, v) == "2. [ ] Task 2"
  {
    assert NatToString(2) == "2";
  }

  /** Two uncompleted tasks render as the scheduler's tests expect. */
  lemma TwoTaskListing(id1: string, id2: string)
    ensures Listing([TaskView(id1, "Task 1", false), TaskView(id2, "Task 2", false)])
         == "Tasks:\n1. [ ] Task 1\n2. [ ] Task 2"
  {
    var v1, v2 := TaskView(id1, "Task 1", false), TaskView(id2, "Task 2", false);
    FirstLine(v1);
    SecondLine(v2);
    ListingOfTwo(v1, v2);
    TwoLineText(Line(1, v1), Line(2, v2));
  }

  lemma ListingOfTwo(v1: TaskView, v2: TaskView)
    ensures Listing([v1, v2]) == "Tasks:\n" + Line(1, v1) + "\n" + Line(2, v2)
  {
    ListingAppend([], v1);
    ListingAppend([v1], v2);
    assert [v1] + [v2] == [v1, v2];
  }

  lemma TwoLineText(line1: string, line2: string)
    requires line1 == "1. [ ] Task 1" && line2 == "2. [ ] Task 2"
    ensures "Tasks:\n" + line1 + "\n" + line2 == "Tasks:\n1. [ ] Task 1\n2. [ ] Task 2"
  {
  }

  /** The scenario of the scheduler's listing test: two tasks added to a new
      scheduler, then listed. */
  method ListTwoNewTasks(id1: string, id2: string) returns (text: string)
    ensures text == "Tasks:\n1. [ ] Task 1\n2. [ ] Task 2"
  {
    var scheduler := new TaskScheduler();
    assert scheduler.View() == [];
    scheduler.AddTask(id1, "Task 1");
    scheduler.AddTask(id2, "Task 2");
    var views := scheduler.View();
    assert views == [TaskView(id1, "Task 1", false), TaskView(id2, "Task 2", false)];
    text := scheduler.ListTasks();
    assert text == Listing(views);
    TwoTaskListing(id1, id2);
  }
}
