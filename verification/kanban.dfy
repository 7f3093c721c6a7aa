/**
 * The Kanban board: one column per task status, left to right in the order
 * ToDo, InProgress, Done, each showing the tasks of that status in list
 * order. The board is a pure view of the task list.
 */
module Kanban {
  import Lists
  import opened Tasks

  /** The columns from left to right */
  const StatusOrder: seq<Status> := [ToDo, InProgress, Done]

  datatype Column = Column(status: Status, tasks: seq<Task>)

  /** `tasks.filter(task => task.status === status)` */
  function ColumnOf(tasks: seq<Task>, status: Status): (r: seq<Task>)
    ensures |r| <= |tasks|
    ensures forall i :: 0 <= i < |r| ==> r[i].status == status && r[i] in tasks
    ensures forall i :: 0 <= i < |tasks| && tasks[i].status == status ==> tasks[i] in r
  {
    Lists.Filter(tasks, (t: Task) => t.status == status)
  }

  /** The board: a column per status, in `StatusOrder` */
  function Board(tasks: seq<Task>): (cols: seq<Column>)
    ensures |cols| == 3
    ensures forall i :: 0 <= i < 3 ==> cols[i].status == StatusOrder[i]
    ensures forall i, t :: 0 <= i < 3 ==> (t in cols[i].tasks <==> t in tasks && t.status == StatusOrder[i])
  {
    seq(3, i requires 0 <= i < 3 => Column(StatusOrder[i], ColumnOf(tasks, StatusOrder[i])))
  }

  /** Each status has exactly one column */
  lemma OneColumnPerStatus(tasks: seq<Task>, s: Status)
    ensures exists i :: 0 <= i < 3 && Board(tasks)[i].status == s
    ensures forall i, j :: 0 <= i < 3 && 0 <= j < 3 && Board(tasks)[i].status == s && Board(tasks)[j].status == s ==> i == j
  {
    match s
    case ToDo => assert Board(tasks)[0].status == s;
    case InProgress => assert Board(tasks)[1].status == s;
    case Done => assert Board(tasks)[2].status == s;
  }

  /** A column of two runs of tasks is the column of the first run followed by that of the second */
  lemma ColumnKeepsOrder(a: seq<Task>, b: seq<Task>, s: Status)
    ensures ColumnOf(a + b, s) == ColumnOf(a, s) + ColumnOf(b, s)
  {
    Lists.FilterAppend(a, b, (t: Task) => t.status == s);
  }

  /** The column of a list that starts with `t` starts with `t` exactly when `t` has the column's status */
  lemma ColumnOfCons(tasks: seq<Task>, s: Status)
    requires |tasks| > 0
    ensures ColumnOf(tasks, s) == (if tasks[0].status == s then [tasks[0]] else []) + ColumnOf(tasks[1..], s)
  {
  }

  /** The three columns together hold every task exactly as often as the list does */
  lemma BoardPartition(tasks: seq<Task>)
    ensures var b := Board(tasks);
            multiset(b[0].tasks) + multiset(b[1].tasks) + multiset(b[2].tasks) == multiset(tasks)
  {
    ColumnsPartition(tasks);
    var b := Board(tasks);
    assert b[0].tasks == ColumnOf(tasks, ToDo);
    assert b[1].tasks == ColumnOf(tasks, InProgress);
    assert b[2].tasks == ColumnOf(tasks, Done);
  }

  /** The same partition stated on the three filters */
  lemma {:induction false} ColumnsPartition(tasks: seq<Task>)
    ensures multiset(ColumnOf(tasks, ToDo)) + multiset(ColumnOf(tasks, InProgress)) + multiset(ColumnOf(tasks, Done))
         == multiset(tasks)
    decreases |tasks|
  {
    if |tasks| > 0 {
      var t, rest := tasks[0], tasks[1..];
      ColumnsPartition(rest);
      assert multiset(tasks) == multiset{t} + multiset(rest) by {
        assert tasks == [t] + rest;
      }
      var todo, doing, done := ColumnOf(rest, ToDo), ColumnOf(rest, InProgress), ColumnOf(rest, Done);
      match t.status
      case ToDo =>
        ColumnHeadIn(tasks, ToDo);
        ColumnHeadOut(tasks, InProgress);
        ColumnHeadOut(tasks, Done);
        SumWithOne(multiset(todo), multiset(doing), multiset(done), t);
      case InProgress =>
        ColumnHeadOut(tasks, ToDo);
        ColumnHeadIn(tasks, InProgress);
        ColumnHeadOut(tasks, Done);
        SumWithOne(multiset(doing), multiset(todo), multiset(done), t);
      case Done =>
        ColumnHeadOut(tasks, ToDo);
        ColumnHeadOut(tasks, InProgress);
        ColumnHeadIn(tasks, Done);
        SumWithOne(multiset(done), multiset(todo), multiset(doing), t);
    }
  }

  /** Adding one element to one of three parts adds it to their sum */
  lemma SumWithOne(a: multiset<Task>, b: multiset<Task>, c: multiset<Task>, t: Task)
    ensures (multiset{t} + a) + b + c == multiset{t} + (a + b + c)
    ensures b + (multiset{t} + a) + c == multiset{t} + (b + a + c)
    ensures b + c + (multiset{t} + a) == multiset{t} + (b + c + a)
  {
  }

  /** The first task heads the column of its status */
  lemma ColumnHeadIn(tasks: seq<Task>, s: Status)
    requires |tasks| > 0 && tasks[0].status == s
    ensures multiset(ColumnOf(tasks, s)) == multiset{tasks[0]} + multiset(ColumnOf(tasks[1..], s))
  {
    ColumnOfCons(tasks, s);
  }

  /** The first task is not in the column of another status */
  lemma ColumnHeadOut(tasks: seq<Task>, s: Status)
    requires |tasks| > 0 && tasks[0].status != s
    ensures ColumnOf(tasks, s) == ColumnOf(tasks[1..], s)
  {
    ColumnOfCons(tasks, s);
  }

  /** The column sizes add up to the number of tasks */
  lemma ColumnSizes(tasks: seq<Task>)
    ensures var b := Board(tasks); |b[0].tasks| + |b[1].tasks| + |b[2].tasks| == |tasks|
  {
    BoardPartition(tasks);
    var b := Board(tasks);
    assert |multiset(b[0].tasks) + multiset(b[1].tasks) + multiset(b[2].tasks)| == |multiset(tasks)|;
  }

  /** A status change from the start of the list is the change of its head followed by that of its tail */
  lemma UpdateStatusCons(tasks: seq<Task>, id: string, s: Status)
    requires |tasks| > 0
    ensures UpdateStatus(tasks, id, s)[1..] == UpdateStatus(tasks[1..], id, s)
  {
  }

  /**
   * Moving the tasks with an id to status `s` takes them out of every other
   * column and leaves the rest of that column as it was; the column of `s`
   * then holds all of them.
   */
  lemma {:induction false} MoveToColumn(tasks: seq<Task>, id: string, s: Status, c: Status)
    requires c != s
    ensures ColumnOf(UpdateStatus(tasks, id, s), c) == DeleteTask(ColumnOf(tasks, c), id)
    decreases |tasks|
  {
    var u := UpdateStatus(tasks, id, s);
    if |tasks| == 0 {
      assert u == [];
    } else {
      var t := tasks[0];
      var head := if t.status == c then [t] else [];
      UpdateStatusCons(tasks, id, s);
      MoveToColumn(tasks[1..], id, s, c);
      ColumnOfCons(u, c);
      ColumnOfCons(tasks, c);
      DeleteKeepsOrder(head, ColumnOf(tasks[1..], c), id);
      if t.id == id {
        assert DeleteTask(head, id) == [];
      } else {
        assert u[0] == t;
        assert DeleteTask(head, id) == head;
      }
    }
  }

  /** After the move every task with the id sits in the column of its new status */
  lemma MovedTasksInColumn(tasks: seq<Task>, id: string, s: Status)
    ensures forall i :: 0 <= i < |tasks| && tasks[i].id == id ==> tasks[i].(status := s) in ColumnOf(UpdateStatus(tasks, id, s), s)
  {
    var u := UpdateStatus(tasks, id, s);
    forall i | 0 <= i < |tasks| && tasks[i].id == id
      ensures tasks[i].(status := s) in ColumnOf(u, s)
    {
      assert u[i] == tasks[i].(status := s);
    }
  }
}
