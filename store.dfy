/**
  The TaskList object: the list of tasks it changes in place, and its commands.
  Each method is proved to do what the matching function of Commands describes.
  A method that needs a line after the input has ended returns ok == false,
  and the command loop stops there without saving.
 */
module TaskStore {
  import opened Wrappers
  import opened Text
  import opened Calendar
  import opened Validators
  import opened Formatter
  import opened Commands

  /**
    addTask's body loop. Each line is trimmed; the first non-blank one brings
    in the header cells and its own cell, the following ones their cells, and a
    blank line ends the task. A blank first line abandons it.
   */
  method ReadTask(headers: seq<string>, lines: seq<string>) returns (b: Body)
    ensures b == match EnterBody(lines)
      case Entered(cells, rest) => Entered(headers + cells, rest)
      case other => other
  {
    var task: seq<string> := [];
    var rest := lines;
    ghost var m: nat := 0;
    while true
      invariant m <= |lines| && rest == lines[m..]
      invariant m == 0 <==> |task| == 0
      invariant m > 0 ==> !IsBlank(lines[0]) && task == headers + AddCells(lines[..m])
      invariant m > 0 ==> NonBlankRun(lines) == Resume(lines[..m], NonBlankRun(rest))
      decreases |rest|
    {
      if rest == [] {
        return Exhausted;
      }
      var input := Trim(rest[0]);
      TrimBlank(rest[0]);
      assert rest[0] == lines[m];
      if !IsBlank(input) {
        NonBlankRunStep(lines, m);
        AddCellsGrow(lines, m);
      }
      rest := rest[1..];
      if !IsBlank(input) && task == [] {
        task := task + headers;
        task := task + [FirstBodyCell(input)];
      } else if !IsBlank(input) {
        task := task + [NextBodyCell(input)];
      } else if task == [] {
        // "The task is blank": the command loop starts again
        return Abandoned(rest);
      } else {
        NonBlankRunStop(lines[..m], lines[m..]);
        break;
      }
      m := m + 1;
    }
    return Entered(task, rest);
  }

  class TaskList {
    /** inputList: one list of cells per task. */
    var tasks: seq<Task>

    ghost predicate Valid()
      reads this
    {
      AllWellFormed(tasks)
    }

    /** The list starts empty; loading a saved list is not part of this model. */
    constructor ()
      ensures Valid() && tasks == []
    {
      tasks := [];
    }

    /** printTasks: the lines it prints, one element per println. */
    method PrintTasks() returns (out: seq<string>)
      ensures out == RenderTable(tasks)
    {
      if tasks == [] {
        return [NoTasks];
      }
      out := [Border + "\n" + Heading];
      var i := 0;
      while i < |tasks|
        invariant 0 <= i <= |tasks|
        invariant out == [Border + "\n" + Heading] + RowBlocks(tasks[..i])
      {
        var row;
        if i < 9 {
          row := "| " + NatToString(i + 1) + "  " + Concat(tasks[i]);
        } else {
          row := NatToString(i + 1) + " " + Concat(tasks[i]);
        }
        out := out + [Border, row];
        assert tasks[..i + 1][..i] == tasks[..i];
        i := i + 1;
      }
      assert tasks[..i] == tasks;
      out := out + [Border];
    }

    /** addTask: read priority, date and time, then the body lines, and append the task. */
    method AddTask(lines: seq<string>, today: Date) returns (ok: bool, rest: seq<string>)
      requires Valid() && ValidDate(today)
      modifies this
      ensures var r := AddFlow(old(tasks), lines, today);
        ok == r.Some? && (ok ==> tasks == r.value.tasks && rest == r.value.rest)
      ensures ok ==> Valid()
    {
      var priority := ReadPriority(lines);
      if priority.None? {
        return false, [];
      }
      var (p, r1) := priority.value;
      var date := ReadDate(r1);
      if date.None? {
        return false, [];
      }
      var (d, r2) := date.value;
      var time := ReadTime(r2);
      if time.None? {
        return false, [];
      }
      var (t, r3) := time.value;
      var body := ReadTask([DateCell(d), TimeCell(t), PriorityCell(p), DueCell(d, today)], r3);
      match body
      case Exhausted =>
        return false, [];
      case Abandoned(after) =>
        return true, after;
      case Entered(task, after) =>
        tasks := tasks + [task];
        AddFlowWellFormed(old(tasks), lines, today);
        return true, after;
    }

    /** deleteTaskRecursion: re-prompt until a line selects a task, then remove it. */
    method DeleteTaskRecursion(lines: seq<string>) returns (ok: bool, rest: seq<string>)
      requires Valid()
      modifies this
      ensures var r := DeletePick(old(tasks), lines);
        ok == r.Some? && (ok ==> tasks == r.value.tasks && rest == r.value.rest)
      ensures ok ==> Valid()
      decreases |lines|
    {
      if lines == [] {
        return false, [];
      }
      var index := TaskIndex(Trim(lines[0]), |tasks|);
      if index.None? {
        // "Invalid task number"
        ok, rest := DeleteTaskRecursion(lines[1..]);
        return;
      }
      var i := index.value;
      DeletePickWellFormed(tasks, lines);
      tasks := tasks[..i] + tasks[i + 1..];
      return true, lines[1..];
    }

    /** deleteTasks: on a non-empty list, print the table, then delete one task. */
    method DeleteTasks(lines: seq<string>) returns (ok: bool, rest: seq<string>, shown: seq<seq<string>>)
      requires Valid()
      modifies this
      ensures old(tasks) == [] ==> ok && rest == lines && shown == [] && tasks == old(tasks)
      ensures old(tasks) != [] ==> shown == [RenderTable(old(tasks))]
      ensures old(tasks) != [] ==> var r := DeletePick(old(tasks), lines);
        ok == r.Some? && (ok ==> tasks == r.value.tasks && rest == r.value.rest)
      ensures ok ==> Valid()
    {
      if tasks == [] {
        // "No tasks have been input"
        return true, lines, [];
      }
      var table := PrintTasks();
      shown := [table];
      ok, rest := DeleteTaskRecursion(lines);
    }

    /** The `task` field, first step: cut task i back to its four header cells, one removeLast at a time. */
    method CutToHeaders(i: nat)
      requires Valid() && i < |tasks|
      modifies this
      ensures tasks == old(tasks)[i := old(tasks)[i][..4]]
    {
      var n := |tasks[i]|;
      for k := 4 to n
        invariant |tasks| == |old(tasks)|
        invariant tasks[i] == old(tasks)[i][..n - (k - 4)]
        invariant forall j :: 0 <= j < |tasks| && j != i ==> tasks[j] == old(tasks)[j]
      {
        tasks := tasks[i := tasks[i][..|tasks[i]| - 1]];
      }
    }

    /**
      The `task` field, second step: read new body lines into task i, refusing
      blank ones until the first non-blank line; a blank line after that ends it.
     */
    method AppendBody(i: nat, lines: seq<string>) returns (ok: bool, rest: seq<string>)
      requires i < |tasks| && |tasks[i]| == 4
      modifies this
      ensures var r := EditBody(lines);
        ok == r.Some? && (ok ==> tasks == old(tasks)[i := old(tasks)[i] + r.value.0] && rest == r.value.1)
    {
      ghost var head := tasks[i];
      rest := lines;
      // the input from the first non-blank line on, and how many of its lines were read
      ghost var body: seq<string> := [];
      ghost var m: nat := 0;
      while true
        invariant |tasks| == |old(tasks)|
        invariant forall j :: 0 <= j < |tasks| && j != i ==> tasks[j] == old(tasks)[j]
        invariant m == 0 ==> tasks[i] == head && EditBody(lines) == EditBody(rest)
        invariant m > 0 ==> m <= |body| && rest == body[m..] && !IsBlank(body[0])
        invariant m > 0 ==> tasks[i] == head + EditCells(body[..m])
        invariant m > 0 ==> EditBody(lines) == EditBody(body) && NonBlankRun(body) == Resume(body[..m], NonBlankRun(rest))
        decreases |rest|
      {
        if rest == [] {
          return false, [];
        }
        var line := rest[0];
        if !IsBlank(line) && |tasks[i]| == 4 {
          body := rest;
          NonBlankRunStep(body, 0);
          EditCellsGrow(body, 0);
          tasks := tasks[i := tasks[i] + [EditFirstBodyCell(line)]];
          m := 1;
        } else if !IsBlank(line) && |tasks[i]| > 4 {
          assert line == body[m];
          NonBlankRunStep(body, m);
          EditCellsGrow(body, m);
          tasks := tasks[i := tasks[i] + [EditNextBodyCell(line)]];
          m := m + 1;
        } else if |tasks[i]| == 4 {
          // "The task is blank"
          assert EditBody(rest) == EditBody(rest[1..]);
        } else {
          NonBlankRunStop(body[..m], rest);
          rest := rest[1..];
          break;
        }
        rest := rest[1..];
      }
      ok := true;
    }

    /**
      The "date" branch: the date cell first holds the bare date, the due cell
      is computed from it, and then the date cell gets its frame.
     */
    method SetDate(i: nat, d: Date, today: Date)
      requires i < |tasks| && |tasks[i]| >= 4 && Stamp(d) && ValidDate(today)
      modifies this
      ensures tasks == old(tasks)[i := old(tasks)[i][0 := DateCell(d)][3 := DueCell(d, today)]]
    {
      ghost var row := tasks[i];
      tasks := tasks[i := tasks[i][0 := FormatDate(d)]];
      tasks := tasks[i := tasks[i][3 := DueCell(d, today)]];
      assert tasks[i] == row[0 := FormatDate(d)][3 := DueCell(d, today)];
      assert HeaderCell(tasks[i][0]) == DateCell(d);
      tasks := tasks[i := tasks[i][0 := HeaderCell(tasks[i][0])]];
      assert tasks[i] == row[0 := DateCell(d)][3 := DueCell(d, today)];
    }

    /** One round of the field loop on task i, for the trimmed, lower-cased field name `key`. */
    method ApplyField(i: nat, key: string, lines: seq<string>, today: Date) returns (ok: bool, rest: seq<string>)
      requires Valid() && i < |tasks| && ValidDate(today)
      modifies this
      ensures var r := EditField(key, old(tasks)[i], lines, today);
        ok == r.Some? && (ok ==> tasks == old(tasks)[i := r.value.0] && rest == r.value.1)
      ensures ok ==> Valid()
    {
      ghost var goal := EditField(key, tasks[i], lines, today);
      rest := lines;
      if key == "priority" {
        var priority := ReadPriority(rest);
        if priority.None? {
          return false, [];
        }
        tasks := tasks[i := tasks[i][2 := PriorityCell(priority.value.0)]];
        rest := priority.value.1;
        assert goal == Some((tasks[i], rest));
      } else if key == "date" {
        var date := ReadDate(rest);
        if date.None? {
          return false, [];
        }
        SetDate(i, date.value.0, today);
        rest := date.value.1;
        assert goal == Some((tasks[i], rest));
      } else if key == "time" {
        var time := ReadTime(rest);
        if time.None? {
          return false, [];
        }
        tasks := tasks[i := tasks[i][1 := TimeCell(time.value.0)]];
        rest := time.value.1;
        assert goal == Some((tasks[i], rest));
      } else if key == "task" {
        CutToHeaders(i);
        ok, rest := AppendBody(i, rest);
        if !ok {
          return false, [];
        }
        assert goal == Some((tasks[i], rest));
      }
      // otherwise "Invalid field"
      assert goal == Some((tasks[i], rest));
      assert tasks == old(tasks)[i := tasks[i]];
      ok := true;
      ReplaceWellFormed(old(tasks), i, tasks[i]);
    }

    /**
      editTaskRecursion: re-prompt until a line selects a task, then the field
      loop, which ends once a line, lower-cased but untrimmed, is a field name.
     */
    method EditTaskRecursion(lines: seq<string>, today: Date) returns (ok: bool, rest: seq<string>)
      requires Valid() && ValidDate(today)
      modifies this
      ensures var r := EditPick(old(tasks), lines, today);
        ok == r.Some? && (ok ==> tasks == r.value.tasks && rest == r.value.rest)
      ensures ok ==> Valid()
      decreases |lines|
    {
      if lines == [] {
        return false, [];
      }
      var index := TaskIndex(Trim(lines[0]), |tasks|);
      if index.None? {
        // "Invalid task number"
        ok, rest := EditTaskRecursion(lines[1..], today);
        return;
      }
      var i := index.value;
      ghost var goal := EditFields(tasks[i], lines[1..], today);
      var field: string := "";
      rest := lines[1..];
      while field !in Fields
        invariant Valid() && |tasks| == |old(tasks)|
        invariant forall j :: 0 <= j < |tasks| && j != i ==> tasks[j] == old(tasks)[j]
        invariant |rest| <= |lines| - 1
        invariant field !in Fields ==> goal == EditFields(tasks[i], rest, today)
        invariant field in Fields ==> goal == Some((tasks[i], rest))
        decreases |rest|
      {
        if rest == [] {
          return false, [];
        }
        field := Lowercase(rest[0]);
        var key := Lowercase(Trim(field));
        ok, rest := ApplyField(i, key, rest[1..], today);
        if !ok {
          return false, [];
        }
      }
      assert tasks == old(tasks)[i := tasks[i]];
      ok := true;
    }

    /** editTasks: on a non-empty list, print the table, then edit one task. */
    method EditTasks(lines: seq<string>, today: Date) returns (ok: bool, rest: seq<string>, shown: seq<seq<string>>)
      requires Valid() && ValidDate(today)
      modifies this
      ensures old(tasks) == [] ==> ok && rest == lines && shown == [] && tasks == old(tasks)
      ensures old(tasks) != [] ==> shown == [RenderTable(old(tasks))]
      ensures old(tasks) != [] ==> var r := EditPick(old(tasks), lines, today);
        ok == r.Some? && (ok ==> tasks == r.value.tasks && rest == r.value.rest)
      ensures ok ==> Valid()
    {
      if tasks == [] {
        // "No tasks have been input"
        return true, lines, [];
      }
      var table := PrintTasks();
      shown := [table];
      ok, rest := EditTaskRecursion(lines, today);
    }

    /**
      start: read a command word, trimmed and lower-cased, and dispatch on it.
      `end` saves and exits; the result tells whether the run got that far and
      which tables it printed.
     */
    method Start(lines: seq<string>, today: Date) returns (saved: bool, shown: seq<seq<string>>)
      requires Valid() && ValidDate(today)
      modifies this
      ensures var s := Run(old(tasks), lines, today);
        saved == s.Saved? && shown == s.shown && (saved ==> tasks == s.tasks)
      decreases |lines|
    {
      if lines == [] {
        return false, [];
      }
      var command := Lowercase(Trim(lines[0]));
      var rest := lines[1..];
      if command == "add" {
        var ok;
        ok, rest := AddTask(rest, today);
        if !ok {
          return false, [];
        }
        saved, shown := Start(rest, today);
      } else if command == "print" {
        var table := PrintTasks();
        saved, shown := Start(rest, today);
        shown := [table] + shown;
      } else if command == "edit" {
        var ok, table;
        ok, rest, table := EditTasks(rest, today);
        if !ok {
          return false, table;
        }
        saved, shown := Start(rest, today);
        shown := table + shown;
      } else if command == "delete" {
        var ok, table;
        ok, rest, table := DeleteTasks(rest);
        if !ok {
          return false, table;
        }
        saved, shown := Start(rest, today);
        shown := table + shown;
      } else if command == "end" {
        return true, [];
      } else {
        // "The input action is invalid"
        saved, shown := Start(rest, today);
      }
    }
  }
}
