/**
 * The study-task list of the board and the six ways the app changes it:
 * adding a task from the form, changing a task's status or priority,
 * deleting a task, appending the sub-tasks an assistant proposed and
 * appending the tasks of a generated study sprint. Every change is a pure
 * function from the old list to the new one. Ids come from the clock
 * (`Date.now()`), which is a parameter here, and nothing assumes they are
 * unique.
 */
module Tasks {
  import opened Wrappers
  import Text
  import Lists

  datatype Status = ToDo | InProgress | Done

  /** The four quadrants of the Eisenhower matrix */
  datatype Priority = UrgentImportant | ImportantNotUrgent | UrgentNotImportant | NotUrgentNotImportant

  /** A task on the board; `day` is set only on tasks that came from a study sprint */
  datatype Task = Task(
    id: string,
    title: string,
    description: string,
    status: Status,
    priority: Priority,
    estimatedTime: int,
    day: Option<int>)

  /** What the add-task form hands over: a task without its id and status */
  datatype Draft = Draft(title: string, description: string, priority: Priority, estimatedTime: int)

  /** Some task in the list carries this id */
  predicate HasId(tasks: seq<Task>, id: string) {
    exists i :: 0 <= i < |tasks| && tasks[i].id == id
  }

  // ---------------------------------------------------------------------
  // Adding a task from the form
  // ---------------------------------------------------------------------

  /** The task the form creates: the clock reading as its id, status ToDo */
  function NewTask(draft: Draft, now: int): Task {
    Task(Text.IntToString(now), draft.title, draft.description, ToDo, draft.priority, draft.estimatedTime, None)
  }

  /** `handleAddTask`: append one task, the earlier ones untouched and in order */
  function AddTask(tasks: seq<Task>, draft: Draft, now: int): (r: seq<Task>)
    ensures |r| == |tasks| + 1 && r[..|tasks|] == tasks
    ensures var t := r[|tasks|];
            && t.status == ToDo && t.day.None?
            && t.title == draft.title && t.description == draft.description
            && t.priority == draft.priority && t.estimatedTime == draft.estimatedTime
    ensures r[|tasks|].id == Text.IntToString(now) && Text.ParseInt(r[|tasks|].id) == Some(now)
  {
    Text.ParseIntRoundTrip(now);
    tasks + [NewTask(draft, now)]
  }

  // ---------------------------------------------------------------------
  // Changing one field of the tasks with a given id
  // ---------------------------------------------------------------------

  /** `handleUpdateTaskStatus`: tasks with the id take the new status, nothing else changes */
  function UpdateStatus(tasks: seq<Task>, id: string, status: Status): (r: seq<Task>)
    ensures |r| == |tasks|
    ensures forall i :: 0 <= i < |r| ==> r[i].(status := tasks[i].status) == tasks[i]
    ensures forall i :: 0 <= i < |r| ==> r[i].status == (if tasks[i].id == id then status else tasks[i].status)
  {
    seq(|tasks|, i requires 0 <= i < |tasks| => if tasks[i].id == id then tasks[i].(status := status) else tasks[i])
  }

  /** `handleUpdateTaskPriority`: tasks with the id take the new priority, nothing else changes */
  function UpdatePriority(tasks: seq<Task>, id: string, priority: Priority): (r: seq<Task>)
    ensures |r| == |tasks|
    ensures forall i :: 0 <= i < |r| ==> r[i].(priority := tasks[i].priority) == tasks[i]
    ensures forall i :: 0 <= i < |r| ==> r[i].priority == (if tasks[i].id == id then priority else tasks[i].priority)
  {
    seq(|tasks|, i requires 0 <= i < |tasks| => if tasks[i].id == id then tasks[i].(priority := priority) else tasks[i])
  }

  /** The second of two status changes to the same id is the one that remains */
  lemma StatusLastWins(tasks: seq<Task>, id: string, first: Status, second: Status)
    ensures UpdateStatus(UpdateStatus(tasks, id, first), id, second) == UpdateStatus(tasks, id, second)
  {
  }

  /** Setting back the status every task with the id had before undoes a status change */
  lemma StatusChangeUndone(tasks: seq<Task>, id: string, previous: Status, status: Status)
    requires forall i :: 0 <= i < |tasks| && tasks[i].id == id ==> tasks[i].status == previous
    ensures UpdateStatus(UpdateStatus(tasks, id, status), id, previous) == tasks
  {
  }

  /** A status change for an id nobody has leaves the list as it is */
  lemma StatusOfUnknownId(tasks: seq<Task>, id: string, status: Status)
    requires !HasId(tasks, id)
    ensures UpdateStatus(tasks, id, status) == tasks
  {
  }

  /** Status and priority changes touch different fields, so their order does not matter */
  lemma StatusAndPriorityCommute(tasks: seq<Task>, a: string, status: Status, b: string, priority: Priority)
    ensures UpdatePriority(UpdateStatus(tasks, a, status), b, priority)
         == UpdateStatus(UpdatePriority(tasks, b, priority), a, status)
  {
  }

  // ---------------------------------------------------------------------
  // Deleting
  // ---------------------------------------------------------------------

  /** `handleDeleteTask`: keep exactly the tasks whose id differs */
  function DeleteTask(tasks: seq<Task>, id: string): (r: seq<Task>)
    ensures |r| <= |tasks|
    ensures forall i :: 0 <= i < |r| ==> r[i].id != id && r[i] in tasks
    ensures forall i :: 0 <= i < |tasks| && tasks[i].id != id ==> tasks[i] in r
  {
    Lists.Filter(tasks, (t: Task) => t.id != id)
  }

  /** Deleting from two runs of tasks deletes from each and keeps the runs in order */
  lemma DeleteKeepsOrder(a: seq<Task>, b: seq<Task>, id: string)
    ensures DeleteTask(a + b, id) == DeleteTask(a, id) + DeleteTask(b, id)
  {
    Lists.FilterAppend(a, b, (t: Task) => t.id != id);
  }

  /** Deleting an id nobody has changes nothing */
  lemma DeleteUnknownId(tasks: seq<Task>, id: string)
    requires !HasId(tasks, id)
    ensures DeleteTask(tasks, id) == tasks
  {
    Lists.FilterAll(tasks, (t: Task) => t.id != id);
  }

  /** Deleting twice is deleting once */
  lemma DeleteIdempotent(tasks: seq<Task>, id: string)
    ensures DeleteTask(DeleteTask(tasks, id), id) == DeleteTask(tasks, id)
  {
    DeleteUnknownId(DeleteTask(tasks, id), id);
  }

  /** Deleting removes as many tasks as carry the id */
  lemma DeleteCount(tasks: seq<Task>, id: string)
    ensures |DeleteTask(tasks, id)| == |tasks| - Lists.Count(tasks, (t: Task) => t.id == id)
  {
    Lists.FilterCount(tasks, (t: Task) => t.id != id);
    Lists.CountComplement(tasks, (t: Task) => t.id == id, (t: Task) => t.id != id);
  }

  /** Deleting the id of a task just added takes it off again, when the id was new */
  lemma DeleteUndoesAdd(tasks: seq<Task>, draft: Draft, now: int)
    requires !HasId(tasks, Text.IntToString(now))
    ensures DeleteTask(AddTask(tasks, draft, now), Text.IntToString(now)) == tasks
  {
    var id := Text.IntToString(now);
    DeleteKeepsOrder(tasks, [NewTask(draft, now)], id);
    DeleteUnknownId(tasks, id);
    Lists.FilterSingle(NewTask(draft, now), (t: Task) => t.id != id);
  }

  // ---------------------------------------------------------------------
  // Sub-tasks proposed by the assistant
  // ---------------------------------------------------------------------

  /** `selectedTaskForAI?.title || 'a larger topic'`: a missing task and an empty title both fall back */
  function ParentTopic(parent: Option<Task>): (r: string)
    ensures parent.Some? && |parent.value.title| > 0 ==> r == parent.value.title
    ensures parent.None? || |parent.value.title| == 0 ==> r == "a larger topic"
  {
    if parent.Some? && |parent.value.title| > 0 then parent.value.title else "a larger topic"
  }

  /** `ai-${Date.now()}-${index}` */
  function SubtaskId(now: int, k: nat): string {
    "ai-" + Text.IntToString(now) + "-" + Text.IntToString(k)
  }

  /** `Sub-task for: ${...}` */
  function SubtaskDescription(parent: Option<Task>): (r: string)
    ensures parent.Some? && |parent.value.title| > 0 ==> r == "Sub-task for: " + parent.value.title
    ensures parent.None? || |parent.value.title| == 0 ==> r == "Sub-task for: a larger topic"
  {
    "Sub-task for: " + ParentTopic(parent)
  }

  /**
   * The tasks made from the proposed titles, in order. The id of each one
   * reads the clock afresh, so `nows[k]` is the reading taken for title `k`.
   */
  function Subtasks(titles: seq<string>, parent: Option<Task>, nows: seq<int>): (r: seq<Task>)
    requires |nows| == |titles|
    ensures |r| == |titles|
    ensures forall k :: 0 <= k < |r| ==>
              && r[k].title == titles[k] && r[k].id == SubtaskId(nows[k], k)
              && r[k].status == ToDo && r[k].priority == ImportantNotUrgent
              && r[k].estimatedTime == 30 && r[k].day.None?
              && r[k].description == SubtaskDescription(parent)
  {
    seq(|titles|, k requires 0 <= k < |titles| =>
      Task(SubtaskId(nows[k], k), titles[k], SubtaskDescription(parent), ToDo, ImportantNotUrgent, 30, None))
  }

  /** `addSubtasksToBoard`: one ToDo task per proposed title, in order, after the existing ones */
  function AddSubtasks(tasks: seq<Task>, titles: seq<string>, parent: Option<Task>, nows: seq<int>): (r: seq<Task>)
    requires |nows| == |titles|
    ensures |r| == |tasks| + |titles| && r[..|tasks|] == tasks
    ensures forall k :: |tasks| <= k < |r| ==>
              && r[k].title == titles[k - |tasks|] && r[k].id == SubtaskId(nows[k - |tasks|], k - |tasks|)
              && r[k].status == ToDo && r[k].priority == ImportantNotUrgent
              && r[k].estimatedTime == 30 && r[k].day.None?
              && r[k].description == SubtaskDescription(parent)
  {
    var added := Subtasks(titles, parent, nows);
    assert forall k :: |tasks| <= k < |tasks| + |added| ==> (tasks + added)[k] == added[k - |tasks|];
    tasks + added
  }

  /**
   * Two sub-task ids with different indices differ, whatever the clock read
   * for each: the index is the digit run after the last '-'.
   */
  lemma SubtaskIdsDistinct(a: int, b: int, i: nat, j: nat)
    requires SubtaskId(a, i) == SubtaskId(b, j)
    ensures i == j
  {
    LastSegment("ai-" + Text.IntToString(a), "ai-" + Text.IntToString(b), Text.IntToString(i), Text.IntToString(j));
    Text.IntToStringInjective(i, j);
  }

  /** The characters after the last '-', or the whole string when it has none */
  function AfterLastDash(x: string): string
    decreases |x|
  {
    if |x| == 0 then x
    else if x[|x| - 1] == '-' then []
    else AfterLastDash(x[..|x| - 1]) + [x[|x| - 1]]
  }

  /** A string ending in '-' and a run of digits has that run after its last '-' */
  lemma {:induction false} AfterDashDigits(p: string, d: string)
    requires Text.AllDigits(d)
    ensures AfterLastDash(p + "-" + d) == d
    decreases |d|
  {
    var x := p + "-" + d;
    if |d| > 0 {
      var init := d[..|d| - 1];
      assert Text.IsDigit(d[|d| - 1]);
      assert x[..|x| - 1] == p + "-" + init;
      AfterDashDigits(p, init);
      assert d == init + [d[|d| - 1]];
    }
  }

  /** Two strings that end in '-' and a run of digits agree on that run */
  lemma LastSegment(p: string, q: string, d: string, e: string)
    requires Text.AllDigits(d) && Text.AllDigits(e)
    requires p + "-" + d == q + "-" + e
    ensures d == e
  {
    AfterDashDigits(p, d);
    AfterDashDigits(q, e);
  }

  // ---------------------------------------------------------------------
  // Tasks of a generated study sprint
  // ---------------------------------------------------------------------

  /** A task as the sprint generator returns it: no id and no status yet */
  datatype Planned = Planned(title: string, description: string, priority: Priority, estimatedTime: int, day: Option<int>)

  /** `task.day ? ...`: a missing day and day 0 are both falsy */
  predicate HasDay(p: Planned) {
    p.day.Some? && p.day.value != 0
  }

  /** The description, prefixed `Day N: ` when the day is truthy */
  function SprintDescription(p: Planned): string {
    if HasDay(p) then "Day " + Text.IntToString(p.day.value) + ": " + p.description else p.description
  }

  /** `sprint-${Date.now()}-${index}` */
  function SprintId(now: int, k: nat): string {
    "sprint-" + Text.IntToString(now) + "-" + Text.IntToString(k)
  }

  /** The tasks made from the planned ones, in order; `nows[k]` is the clock reading taken for task `k` */
  function SprintTasks(planned: seq<Planned>, nows: seq<int>): (r: seq<Task>)
    requires |nows| == |planned|
    ensures |r| == |planned|
    ensures forall k :: 0 <= k < |r| ==>
              && r[k].title == planned[k].title && r[k].priority == planned[k].priority
              && r[k].estimatedTime == planned[k].estimatedTime && r[k].day == planned[k].day
              && r[k].status == ToDo && r[k].id == SprintId(nows[k], k)
              && r[k].description == SprintDescription(planned[k])
  {
    seq(|planned|, k requires 0 <= k < |planned| =>
      var p := planned[k];
      Task(SprintId(nows[k], k), p.title, SprintDescription(p), ToDo, p.priority, p.estimatedTime, p.day))
  }

  /** The mapping step of `handleGenerateSprint`: one ToDo task per planned task, in order, after the existing ones */
  function AddSprint(tasks: seq<Task>, planned: seq<Planned>, nows: seq<int>): (r: seq<Task>)
    requires |nows| == |planned|
    ensures |r| == |tasks| + |planned| && r[..|tasks|] == tasks
    ensures forall k :: |tasks| <= k < |r| ==>
              var p := planned[k - |tasks|];
              && r[k].title == p.title && r[k].priority == p.priority && r[k].estimatedTime == p.estimatedTime
              && r[k].day == p.day && r[k].status == ToDo && r[k].id == SprintId(nows[k - |tasks|], k - |tasks|)
              && r[k].description == SprintDescription(p)
  {
    var added := SprintTasks(planned, nows);
    assert forall k :: |tasks| <= k < |tasks| + |added| ==> (tasks + added)[k] == added[k - |tasks|];
    tasks + added
  }

  /** The sprint description keeps the original text at its end and is longer exactly when the day is truthy */
  lemma SprintDescriptionShape(p: Planned)
    ensures var d := SprintDescription(p);
            && |d| >= |p.description| && d[|d| - |p.description|..] == p.description
            && (|d| > |p.description| <==> HasDay(p))
  {
  }

  /** Reading the number after `Day ` gives back the day a prefixed description was made from */
  lemma SprintDayReadsBack(p: Planned)
    requires HasDay(p)
    ensures var d := SprintDescription(p); |d| > 4 && d[..4] == "Day " && Text.ParseInt(d[4..]) == p.day
  {
    var n := Text.IntToString(p.day.value);
    var rest := ": " + p.description;
    var d := SprintDescription(p);
    assert d == "Day " + (n + rest);
    assert d[4..] == n + rest;
    Text.ParseIntFollowed(p.day.value, rest);
  }

  /** Two sprint task ids with different indices differ, whatever the clock read for each */
  lemma SprintIdsDistinct(a: int, b: int, i: nat, j: nat)
    requires SprintId(a, i) == SprintId(b, j)
    ensures i == j
  {
    LastSegment("sprint-" + Text.IntToString(a), "sprint-" + Text.IntToString(b), Text.IntToString(i), Text.IntToString(j));
    Text.IntToStringInjective(i, j);
  }

  /** Form tasks, assistant sub-tasks and sprint tasks never share an id, whatever the clock said */
  lemma IdKindsDiffer(a: int, b: int, c: int, i: nat, j: nat)
    ensures Text.IntToString(a) != SubtaskId(b, i)
    ensures Text.IntToString(a) != SprintId(c, j)
    ensures SubtaskId(b, i) != SprintId(c, j)
  {
    var s := Text.IntToString(a);
    assert s[0] == '-' || Text.IsDigit(s[0]);
    assert SubtaskId(b, i)[0] == 'a';
    assert SprintId(c, j)[0] == 's';
  }
}
