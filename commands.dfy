/**
  What each command of the task list does to the list of tasks and to the
  remaining input lines, as functions: add, print, edit, delete, end, and the
  command loop that dispatches on them. A run that needs a line after the
  input has ended stops there (readln throws and nothing is saved).
 */
module Commands {
  import opened Wrappers
  import opened Text
  import opened Calendar
  import opened Validators
  import opened Formatter

  /** A task is its list of cells: date, time, priority and due tag, then its body cells. */
  type Task = seq<string>

  /** Four header cells and at least one body cell. */
  predicate WellFormed(task: Task) {
    |task| >= 5
  }

  predicate AllWellFormed(tasks: seq<Task>) {
    forall i :: 0 <= i < |tasks| ==> WellFormed(tasks[i])
  }

  /** The list and the unread input when a command hands control back to the command loop. */
  datatype Step = Step(tasks: seq<Task>, rest: seq<string>)

  // ---------------------------------------------------------------------------
  // Header cells
  // ---------------------------------------------------------------------------

  /** A date inputDate can return. */
  predicate Stamp(d: Date) {
    ValidDate(d) && 0 <= d.year <= 9999
  }

  /** Every header cell is its value between "| " and " ". */
  function HeaderCell(value: string): string {
    "| " + value + " "
  }

  function DateCell(d: Date): string
    requires Stamp(d)
  {
    HeaderCell(FormatDate(d))
  }

  function TimeCell(t: Time): string
    requires ValidTime(t)
  {
    HeaderCell(FormatTime(t))
  }

  function PriorityCell(p: Priority): string {
    HeaderCell(PriorityMarker(p))
  }

  function DueCell(d: Date, today: Date): string
    requires ValidDate(d) && ValidDate(today)
  {
    HeaderCell(DueMarker(DueTag(d, today)))
  }

  /** The four header cells addTask stores, in order: date, time, priority, due tag. */
  function Headers(p: Priority, d: Date, t: Time, today: Date): seq<string>
    requires Stamp(d) && ValidTime(t) && ValidDate(today)
  {
    [DateCell(d), TimeCell(t), PriorityCell(p), DueCell(d, today)]
  }

  /** The date and time cells read back as the date and time they were made from. */
  lemma HeaderCellsReadBack(d: Date, t: Time)
    requires Stamp(d) && ValidTime(t)
    ensures |DateCell(d)| == 13 && TryDate(DateCell(d)[2..12]) == Accepted(d)
    ensures |TimeCell(t)| == 8 && TryTime(TimeCell(t)[2..7]) == Accepted(t)
  {
    assert DateCell(d)[2..12] == FormatDate(d);
    assert TimeCell(t)[2..7] == FormatTime(t);
    FormatDateAccepted(d);
    FormatTimeAccepted(t);
  }

  // ---------------------------------------------------------------------------
  // Task numbers
  // ---------------------------------------------------------------------------

  /**
    The index a task-number line selects among `n` tasks: toInt, minus one in
    32-bit arithmetic, then the range check; None when any of these fails.
   */
  function TaskIndex(line: string, n: nat): (r: Option<nat>)
    ensures r.Some? ==> r.value < n
  {
    match ParseInt(line)
    case None => None
    case Some(v) =>
      var k := if v == MinInt then MaxInt else v - 1;
      if 0 <= k < n then Some(k) else None
  }

  /** For a list the JVM can hold, line selects task i exactly when it reads as the number i + 1. */
  lemma TaskIndexIsNumber(line: string, n: nat, i: nat)
    requires n <= MaxInt && i < n
    ensures TaskIndex(line, n) == Some(i) <==> ParseInt(line) == Some(i + 1)
  {
  }

  /** The number printTasks shows on row i selects task i. */
  lemma RowNumberSelects(i: nat, n: nat)
    requires i < n <= MaxInt
    ensures TaskIndex(NatToString(i + 1), n) == Some(i)
  {
    ParseIntNatToString(i + 1);
    TaskIndexIsNumber(NatToString(i + 1), n, i);
  }

  /** toInt's leniency carries over: a plus sign and leading zeros still select a task. */
  lemma TaskNumberForms()
    ensures TaskIndex("+1", 3) == Some(0)
    ensures TaskIndex("01", 3) == Some(0)
  {
    assert ParseInt("+1") == Some(1) by {
      ParseIntSigned("+", "1");
      assert "+" + "1" == "+1";
    }
    assert ParseInt("01") == Some(1) by {
      ParseIntSigned("", "01");
      assert "" + "01" == "01";
    }
  }

  /** "-0" reads as zero and so selects no task, as does a number past the end of the list. */
  lemma TaskNumberRejects()
    ensures TaskIndex("-0", 3) == None
    ensures TaskIndex("4", 3) == None
  {
    assert ParseInt("-0") == Some(0) by {
      ParseIntSigned("-", "0");
      assert "-" + "0" == "-0";
    }
    assert ParseInt("4") == Some(4) by {
      ParseIntSigned("", "4");
      assert "" + "4" == "4";
    }
  }

  /** The first line that selects one of `n` tasks, and the lines after it. */
  function ChosenTask(n: nat, lines: seq<string>): (r: Option<(nat, seq<string>)>)
    ensures r.Some? ==> r.value.0 < n && Consumed(lines, r.value.1)
    ensures r.None? <==> forall j :: 0 <= j < |lines| ==> TaskIndex(Trim(lines[j]), n).None?
    decreases |lines|
  {
    if lines == [] then None
    else match TaskIndex(Trim(lines[0]), n)
      case Some(i) => Some((i, lines[1..]))
      case None => ChosenTask(n, lines[1..])
  }

  /** The chosen task is the one the first selecting line names; every line before it selects nothing. */
  lemma {:induction false} ChosenTaskFirst(n: nat, lines: seq<string>, k: nat)
    requires k < |lines| && TaskIndex(Trim(lines[k]), n).Some?
    requires forall j :: 0 <= j < k ==> TaskIndex(Trim(lines[j]), n).None?
    ensures ChosenTask(n, lines) == Some((TaskIndex(Trim(lines[k]), n).value, lines[k + 1..]))
  {
    if k > 0 {
      var tail := lines[1..];
      assert ChosenTask(n, lines) == ChosenTask(n, tail);
      assert tail[k - 1] == lines[k];
      assert forall j :: 0 <= j < k - 1 ==> tail[j] == lines[j + 1];
      ChosenTaskFirst(n, tail, k - 1);
      assert tail[k..] == lines[k + 1..];
    }
  }

  // ---------------------------------------------------------------------------
  // Body lines
  // ---------------------------------------------------------------------------

  /**
    The non-blank lines before the first blank one, and the lines after that
    blank one; None when the input ends first.
   */
  function NonBlankRun(lines: seq<string>): (r: Option<(seq<string>, seq<string>)>)
    ensures r.Some? ==> |r.value.0| < |lines| && lines == r.value.0 + [lines[|r.value.0|]] + r.value.1
    decreases |lines|
  {
    if lines == [] then None
    else if IsBlank(lines[0]) then Some(([], lines[1..]))
    else match NonBlankRun(lines[1..])
      case None => None
      case Some((run, rest)) => Some(([lines[0]] + run, rest))
  }

  /** NonBlankRun stops at the first blank line, and finds none exactly when every line is non-blank. */
  lemma {:induction false} NonBlankRunSpec(lines: seq<string>)
    ensures NonBlankRun(lines).None? <==> forall j :: 0 <= j < |lines| ==> !IsBlank(lines[j])
    ensures NonBlankRun(lines).Some? ==> var run := NonBlankRun(lines).value.0;
      IsBlank(lines[|run|]) && forall j :: 0 <= j < |run| ==> !IsBlank(run[j])
    decreases |lines|
  {
    if lines != [] && !IsBlank(lines[0]) {
      var tail := lines[1..];
      NonBlankRunSpec(tail);
      forall j | 0 < j < |lines|
        ensures lines[j] == tail[j - 1]
      {
      }
    }
  }

  /** The body cells addTask makes of a run of non-blank lines, each trimmed first. */
  function AddCells(run: seq<string>): (cells: seq<string>)
    requires run != []
    decreases |run|
  {
    if |run| == 1 then [FirstBodyCell(Trim(run[0]))]
    else AddCells(run[..|run| - 1]) + [NextBodyCell(Trim(run[|run| - 1]))]
  }

  /** The body cells the `task` field of editTasks makes of a run of non-blank lines, untrimmed. */
  function EditCells(run: seq<string>): (cells: seq<string>)
    requires run != []
    decreases |run|
  {
    if |run| == 1 then [EditFirstBodyCell(run[0])]
    else EditCells(run[..|run| - 1]) + [EditNextBodyCell(run[|run| - 1])]
  }

  /** Cell j of addTask's body is made of line j: the first as a first cell, the others as later cells. */
  lemma AddCellsAt(run: seq<string>)
    requires run != []
    ensures |AddCells(run)| == |run|
    ensures AddCells(run)[0] == FirstBodyCell(Trim(run[0]))
    ensures forall j :: 0 < j < |run| ==> AddCells(run)[j] == NextBodyCell(Trim(run[j]))
  {
    AddCellsLength(run);
    AddCellAt(run, 0);
    forall j | 0 < j < |run|
      ensures AddCells(run)[j] == NextBodyCell(Trim(run[j]))
    {
      AddCellAt(run, j);
    }
  }

  lemma {:induction false} AddCellsLength(run: seq<string>)
    requires run != []
    ensures |AddCells(run)| == |run|
    decreases |run|
  {
    if |run| > 1 {
      AddCellsLength(run[..|run| - 1]);
    }
  }

  lemma {:induction false} AddCellAt(run: seq<string>, j: nat)
    requires j < |run|
    ensures |AddCells(run)| == |run|
    ensures AddCells(run)[j] == if j == 0 then FirstBodyCell(Trim(run[0])) else NextBodyCell(Trim(run[j]))
    decreases |run|
  {
    AddCellsLength(run);
    var init := run[..|run| - 1];
    if |run| == 1 {
      assert AddCells(run) == [FirstBodyCell(Trim(run[0]))];
    } else if j == |run| - 1 {
      assert AddCells(run) == AddCells(init) + [NextBodyCell(Trim(run[j]))];
    } else {
      AddCellAt(init, j);
      assert init[j] == run[j];
      assert AddCells(run) == AddCells(init) + [NextBodyCell(Trim(run[|run| - 1]))];
    }
  }

  /** One more line of addTask's body adds one more cell. */
  lemma AddCellsGrow(lines: seq<string>, m: nat)
    requires m < |lines|
    ensures m == 0 ==> AddCells(lines[..1]) == [FirstBodyCell(Trim(lines[0]))]
    ensures m > 0 ==> AddCells(lines[..m + 1]) == AddCells(lines[..m]) + [NextBodyCell(Trim(lines[m]))]
  {
    assert lines[..m + 1][..m] == lines[..m];
  }

  /** One more line of the edited body adds one more cell. */
  lemma EditCellsGrow(lines: seq<string>, m: nat)
    requires m < |lines|
    ensures m == 0 ==> EditCells(lines[..1]) == [EditFirstBodyCell(lines[0])]
    ensures m > 0 ==> EditCells(lines[..m + 1]) == EditCells(lines[..m]) + [EditNextBodyCell(lines[m])]
  {
    assert lines[..m + 1][..m] == lines[..m];
  }

  /** Cell j of the edited body is made of line j. */
  lemma EditCellsAt(run: seq<string>)
    requires run != []
    ensures |EditCells(run)| == |run|
    ensures EditCells(run)[0] == EditFirstBodyCell(run[0])
    ensures forall j :: 0 < j < |run| ==> EditCells(run)[j] == EditNextBodyCell(run[j])
  {
    EditCellsLength(run);
    EditCellAt(run, 0);
    forall j | 0 < j < |run|
      ensures EditCells(run)[j] == EditNextBodyCell(run[j])
    {
      EditCellAt(run, j);
    }
  }

  lemma {:induction false} EditCellsLength(run: seq<string>)
    requires run != []
    ensures |EditCells(run)| == |run|
    decreases |run|
  {
    if |run| > 1 {
      EditCellsLength(run[..|run| - 1]);
    }
  }

  lemma {:induction false} EditCellAt(run: seq<string>, j: nat)
    requires j < |run|
    ensures |EditCells(run)| == |run|
    ensures EditCells(run)[j] == if j == 0 then EditFirstBodyCell(run[0]) else EditNextBodyCell(run[j])
    decreases |run|
  {
    EditCellsLength(run);
    var init := run[..|run| - 1];
    if |run| == 1 {
      assert EditCells(run) == [EditFirstBodyCell(run[0])];
    } else if j == |run| - 1 {
      assert EditCells(run) == EditCells(init) + [EditNextBodyCell(run[j])];
    } else {
      EditCellAt(init, j);
      assert init[j] == run[j];
      assert EditCells(run) == EditCells(init) + [EditNextBodyCell(run[|run| - 1])];
    }
  }

  /** Every line typed into addTask is recovered, trimmed, from the cell made of it. */
  lemma AddCellsReadBack(run: seq<string>)
    requires run != [] && forall j :: 0 <= j < |run| ==> !IsBlank(run[j])
    ensures |AddCells(run)| == |run|
    ensures AddCells(run)[0] == "|" + Wrap(Trim(run[0])) + "|"
    ensures forall j :: 0 < j < |run| ==> AddCells(run)[j] == "\n" + Gutter + Wrap(Trim(run[j])) + "|"
    ensures forall j :: 0 <= j < |run| ==> Unwrap(Wrap(Trim(run[j]))) == Trim(run[j])
  {
    AddCellsAt(run);
    forall j | 0 <= j < |run|
      ensures Unwrap(Wrap(Trim(run[j]))) == Trim(run[j])
      ensures FirstBodyCell(Trim(run[j])) == "|" + Wrap(Trim(run[j])) + "|"
      ensures NextBodyCell(Trim(run[j])) == "\n" + Gutter + Wrap(Trim(run[j])) + "|"
    {
      TrimmedWrapRoundTrip(run[j]);
      BodyCellsFrameWrap(Trim(run[j]));
    }
  }

  /**
    Every line typed into the `task` field is recovered from the cell made of
    it as typed, leading blanks included, less the blanks at its end.
   */
  lemma EditCellsReadBack(run: seq<string>)
    requires run != [] && forall j :: 0 <= j < |run| ==> run[j] != []
    ensures |EditCells(run)| == |run|
    ensures EditCells(run)[0] == "|" + Join(EditPieces(run[0]), Joint) + "|"
    ensures forall j :: 0 < j < |run| ==>
      EditCells(run)[j] == "\n" + Gutter + Join(EditPieces(run[j]), Joint) + (if |run[j]| <= BodyWidth then "|" else "")
    ensures forall j :: 0 <= j < |run| ==> Unwrap(Join(EditPieces(run[j]), Joint)) == DropTrailingBlanks(run[j])
  {
    EditCellsAt(run);
    forall j | 0 <= j < |run|
      ensures Unwrap(Join(EditPieces(run[j]), Joint)) == DropTrailingBlanks(run[j])
      ensures EditFirstBodyCell(run[j]) == "|" + Join(EditPieces(run[j]), Joint) + "|"
      ensures EditNextBodyCell(run[j]) ==
        "\n" + Gutter + Join(EditPieces(run[j]), Joint) + (if |run[j]| <= BodyWidth then "|" else "")
    {
      EditCellsFrame(run[j]);
      EditCellsRoundTrip(run[j]);
    }
  }

  /** A run found further on, with the lines already read in front of it. */
  function Resume(read: seq<string>, r: Option<(seq<string>, seq<string>)>): Option<(seq<string>, seq<string>)> {
    match r
    case None => None
    case Some((run, rest)) => Some((read + run, rest))
  }

  /** A non-blank first line is the first line of the run. */
  lemma NonBlankRunHead(lines: seq<string>)
    requires lines != [] && !IsBlank(lines[0])
    ensures NonBlankRun(lines) == Resume([lines[0]], NonBlankRun(lines[1..]))
  {
  }

  /** Putting two groups of read lines in front, one after the other, puts them in front together. */
  lemma ResumeTwice(a: seq<string>, b: seq<string>, r: Option<(seq<string>, seq<string>)>)
    ensures Resume(a, Resume(b, r)) == Resume(a + b, r)
  {
    if r.Some? {
      assert a + (b + r.value.0) == (a + b) + r.value.0;
    }
  }

  /**
    Reading one more non-blank line keeps the run NonBlankRun finds: the line
    moves from the unread input to the lines already read.
   */
  lemma NonBlankRunStep(lines: seq<string>, m: nat)
    requires m < |lines| && !IsBlank(lines[m])
    ensures m == 0 ==> NonBlankRun(lines) == Resume(lines[..1], NonBlankRun(lines[1..]))
    ensures Resume(lines[..m], NonBlankRun(lines[m..])) == Resume(lines[..m + 1], NonBlankRun(lines[m + 1..]))
  {
    var here := lines[m..];
    assert here[0] == lines[m] && here[1..] == lines[m + 1..];
    NonBlankRunHead(here);
    ResumeTwice(lines[..m], [lines[m]], NonBlankRun(lines[m + 1..]));
    assert lines[..m] + [lines[m]] == lines[..m + 1];
    if m == 0 {
      assert here == lines && [lines[0]] == lines[..1];
    }
  }

  /** A blank line ends the run: everything already read is the run. */
  lemma NonBlankRunStop(read: seq<string>, rest: seq<string>)
    requires rest != [] && IsBlank(rest[0])
    ensures Resume(read, NonBlankRun(rest)) == Some((read, rest[1..]))
  {
    assert read + [] == read;
  }

  /** How addTask's body loop ends. */
  datatype Body = Exhausted | Abandoned(rest: seq<string>) | Entered(cells: seq<string>, rest: seq<string>)

  /**
    addTask's body loop: a blank first line abandons the task (the command loop
    starts again); otherwise the non-blank lines up to a blank one become the cells.
   */
  function EnterBody(lines: seq<string>): (b: Body)
    ensures b.Entered? ==> b.cells != [] && Consumed(lines, b.rest)
  {
    if lines == [] then Exhausted
    else if IsBlank(lines[0]) then Abandoned(lines[1..])
    else match NonBlankRun(lines)
      case None => Exhausted
      case Some((run, rest)) => Entered(AddCells(run), rest)
  }

  /**
    The body loop abandons the task exactly when the first line is blank, and
    runs out of input exactly when no line is blank; otherwise it enters the
    lines before the first blank one after the first line and resumes after it.
   */
  lemma EnterBodyCases(lines: seq<string>)
    ensures EnterBody(lines).Abandoned? <==> lines != [] && IsBlank(lines[0])
    ensures EnterBody(lines).Abandoned? ==> EnterBody(lines).rest == lines[1..]
    ensures EnterBody(lines).Exhausted? <==> forall j :: 0 <= j < |lines| ==> !IsBlank(lines[j])
    ensures EnterBody(lines).Entered? ==> var m := |EnterBody(lines).cells|;
      && m < |lines| && IsBlank(lines[m]) && EnterBody(lines).rest == lines[m + 1..]
      && (forall j :: 0 <= j < m ==> !IsBlank(lines[j]))
      && EnterBody(lines).cells == AddCells(lines[..m])
  {
    if lines != [] && !IsBlank(lines[0]) {
      NonBlankRunSpec(lines);
      if NonBlankRun(lines).Some? {
        var run := NonBlankRun(lines).value.0;
        AddCellsLength(run);
        assert run == lines[..|run|];
        assert NonBlankRun(lines).value.1 == lines[|run| + 1..];
      }
    }
  }

  /**
    The body loop of the `task` field: a blank line before the first non-blank
    one is refused and skipped; then the non-blank lines up to a blank one.
   */
  function EditBody(lines: seq<string>): (r: Option<(seq<string>, seq<string>)>)
    ensures r.Some? ==> r.value.0 != [] && Consumed(lines, r.value.1)
    decreases |lines|
  {
    if lines == [] then None
    else if IsBlank(lines[0]) then
      var r := EditBody(lines[1..]);
      assert r.Some? ==> lines[1..][|lines| - 1 - |r.value.1|..] == lines[|lines| - |r.value.1|..];
      r
    else match NonBlankRun(lines)
      case None => None
      case Some((run, rest)) => Some((EditCells(run), rest))
  }

  /** Leading blank lines make no difference to the `task` field's body. */
  lemma {:induction false} EditBodySkip(lines: seq<string>, k: nat)
    requires k <= |lines| && forall j :: 0 <= j < k ==> IsBlank(lines[j])
    ensures EditBody(lines) == EditBody(lines[k..])
    decreases k
  {
    if k > 0 {
      var tail := lines[1..];
      forall j | 0 <= j < k - 1
        ensures IsBlank(tail[j])
      {
        assert tail[j] == lines[j + 1];
      }
      EditBodySkip(tail, k - 1);
      assert tail[k - 1..] == lines[k..];
    }
  }

  /**
    Once a non-blank line starts it, the `task` field runs out of input exactly
    when no line is blank; otherwise it enters the lines before the first blank
    one and resumes after it.
   */
  lemma EditBodyCases(lines: seq<string>)
    requires lines != [] && !IsBlank(lines[0])
    ensures EditBody(lines).None? <==> forall j :: 0 <= j < |lines| ==> !IsBlank(lines[j])
    ensures EditBody(lines).Some? ==> var m := |EditBody(lines).value.0|;
      && m < |lines| && IsBlank(lines[m]) && EditBody(lines).value.1 == lines[m + 1..]
      && (forall j :: 0 <= j < m ==> !IsBlank(lines[j]))
      && EditBody(lines).value.0 == EditCells(lines[..m])
  {
    NonBlankRunSpec(lines);
    if NonBlankRun(lines).Some? {
      var run := NonBlankRun(lines).value.0;
      EditCellsAt(run);
      assert run == lines[..|run|];
    }
  }

  // ---------------------------------------------------------------------------
  // add
  // ---------------------------------------------------------------------------

  /** A task's four header cells as addTask makes them, for some priority, date and time. */
  ghost predicate IsHeaderRow(cells: seq<string>, today: Date)
    requires ValidDate(today)
  {
    exists p: Priority, d: Date, t: Time :: Stamp(d) && ValidTime(t) && cells == Headers(p, d, t, today)
  }

  /**
    addTask: priority, date and time, then the body. None when the input runs
    out; a blank first body line leaves the list as it was.
   */
  function AddFlow(tasks: seq<Task>, lines: seq<string>, today: Date): (r: Option<Step>)
    requires ValidDate(today)
    ensures r.Some? ==> Consumed(lines, r.value.rest)
    ensures r.Some? ==> (r.value.tasks == tasks || (
      && |r.value.tasks| == |tasks| + 1 && r.value.tasks[..|tasks|] == tasks
      && WellFormed(r.value.tasks[|tasks|]) && IsHeaderRow(r.value.tasks[|tasks|][..4], today)))
  {
    match ReadPriority(lines)
    case None => None
    case Some((p, r1)) =>
      match ReadDate(r1)
      case None => None
      case Some((d, r2)) =>
        match ReadTime(r2)
        case None => None
        case Some((t, r3)) =>
          match EnterBody(r3)
          case Exhausted => None
          case Abandoned(rest) => Some(Step(tasks, rest))
          case Entered(cells, rest) =>
            var task := Headers(p, d, t, today) + cells;
            assert task[..4] == Headers(p, d, t, today);
            assert (tasks + [task])[..|tasks|] == tasks;
            Some(Step(tasks + [task], rest))
  }

  /**
    Once priority, date and time are read, add goes on exactly when some later
    line is blank; a blank first body line leaves the list as it was, and
    nothing else does.
   */
  lemma AddFlowCases(tasks: seq<Task>, lines: seq<string>, today: Date, p: Priority, d: Date, t: Time,
                     r1: seq<string>, r2: seq<string>, body: seq<string>)
    requires ValidDate(today)
    requires ReadPriority(lines) == Some((p, r1)) && ReadDate(r1) == Some((d, r2)) && ReadTime(r2) == Some((t, body))
    ensures AddFlow(tasks, lines, today).Some? <==> exists j :: 0 <= j < |body| && IsBlank(body[j])
    ensures body != [] && IsBlank(body[0]) ==> AddFlow(tasks, lines, today) == Some(Step(tasks, body[1..]))
    ensures AddFlow(tasks, lines, today).Some? && AddFlow(tasks, lines, today).value.tasks == tasks
      <==> body != [] && IsBlank(body[0])
  {
    EnterBodyCases(body);
  }

  /**
    With a non-blank first body line, add appends the header cells followed by
    one cell for each line before the first blank one, and resumes after it.
   */
  lemma AddFlowAppends(tasks: seq<Task>, lines: seq<string>, today: Date, p: Priority, d: Date, t: Time,
                       r1: seq<string>, r2: seq<string>, body: seq<string>, m: nat)
    requires ValidDate(today)
    requires ReadPriority(lines) == Some((p, r1)) && ReadDate(r1) == Some((d, r2)) && ReadTime(r2) == Some((t, body))
    requires 0 < m < |body| && IsBlank(body[m]) && forall j :: 0 <= j < m ==> !IsBlank(body[j])
    ensures AddFlow(tasks, lines, today)
      == Some(Step(tasks + [Headers(p, d, t, today) + AddCells(body[..m])], body[m + 1..]))
  {
    EnterBodyCases(body);
    var e := EnterBody(body);
    assert !IsBlank(body[0]);
    assert e.Entered?;
    var k := |e.cells|;
    assert IsBlank(body[k]) && IsBlank(body[m]);
    assert k == m;
    assert e == Entered(AddCells(body[..m]), body[m + 1..]);
  }

  lemma AppendWellFormed(tasks: seq<Task>, grown: seq<Task>)
    requires AllWellFormed(tasks)
    requires grown == tasks || (|grown| == |tasks| + 1 && grown[..|tasks|] == tasks && WellFormed(grown[|tasks|]))
    ensures AllWellFormed(grown)
  {
    if grown != tasks {
      forall i | 0 <= i < |grown| ensures WellFormed(grown[i]) {
        if i < |tasks| {
          assert grown[i] == grown[..|tasks|][i];
        }
      }
    }
  }

  lemma AddFlowWellFormed(tasks: seq<Task>, lines: seq<string>, today: Date)
    requires ValidDate(today) && AllWellFormed(tasks)
    ensures AddFlow(tasks, lines, today).Some? ==> AllWellFormed(AddFlow(tasks, lines, today).value.tasks)
  {
    var r := AddFlow(tasks, lines, today);
    if r.Some? {
      AppendWellFormed(tasks, r.value.tasks);
    }
  }

  lemma ReplaceWellFormed(tasks: seq<Task>, i: nat, task: Task)
    requires AllWellFormed(tasks) && i < |tasks| && WellFormed(task)
    ensures AllWellFormed(tasks[i := task])
  {
  }

  // ---------------------------------------------------------------------------
  // edit
  // ---------------------------------------------------------------------------

  /** The field names that end editTasks' field loop. */
  const Fields: seq<string> := ["priority", "date", "time", "task"]

  /**
    One round of the field loop: `key` is the trimmed, lower-cased field name.
    None when the input runs out.
   */
  function EditField(key: string, task: Task, lines: seq<string>, today: Date): (r: Option<(Task, seq<string>)>)
    requires WellFormed(task) && ValidDate(today)
    ensures r.Some? ==> WellFormed(r.value.0) && Suffix(lines, r.value.1)
    ensures key !in Fields ==> r == Some((task, lines))
  {
    if key == "priority" then
      match ReadPriority(lines)
      case None => None
      case Some((p, rest)) => Some((task[2 := PriorityCell(p)], rest))
    else if key == "date" then
      match ReadDate(lines)
      case None => None
      case Some((d, rest)) => Some((task[0 := DateCell(d)][3 := DueCell(d, today)], rest))
    else if key == "time" then
      match ReadTime(lines)
      case None => None
      case Some((t, rest)) => Some((task[1 := TimeCell(t)], rest))
    else if key == "task" then
      match EditBody(lines)
      case None => None
      case Some((cells, rest)) => Some((task[..4] + cells, rest))
    else Some((task, lines))
  }

  /**
    Each field changes only its own cells: the priority cell, the date and due
    cells, the time cell, or the body after the four header cells.
   */
  lemma EditFieldFrame(key: string, task: Task, lines: seq<string>, today: Date)
    requires WellFormed(task) && ValidDate(today)
    ensures EditField(key, task, lines, today).Some? && key == "priority" ==>
      && |EditField(key, task, lines, today).value.0| == |task|
      && forall c :: 0 <= c < |task| && c != 2 ==> EditField(key, task, lines, today).value.0[c] == task[c]
    ensures EditField(key, task, lines, today).Some? && key == "date" ==>
      && |EditField(key, task, lines, today).value.0| == |task|
      && forall c :: 0 <= c < |task| && c != 0 && c != 3 ==> EditField(key, task, lines, today).value.0[c] == task[c]
    ensures EditField(key, task, lines, today).Some? && key == "time" ==>
      && |EditField(key, task, lines, today).value.0| == |task|
      && forall c :: 0 <= c < |task| && c != 1 ==> EditField(key, task, lines, today).value.0[c] == task[c]
    ensures EditField(key, task, lines, today).Some? && key == "task" ==>
      EditField(key, task, lines, today).value.0[..4] == task[..4]
  {
  }

  /**
    The field loop: it reads a field name, applies it, and stops once the line,
    lower-cased but untrimmed, is exactly one of the field names.
   */
  function EditFields(task: Task, lines: seq<string>, today: Date): (r: Option<(Task, seq<string>)>)
    requires WellFormed(task) && ValidDate(today)
    ensures r.Some? ==> WellFormed(r.value.0) && Consumed(lines, r.value.1)
    decreases |lines|
  {
    if lines == [] then None
    else
      var field := Lowercase(lines[0]);
      var step := EditField(Lowercase(Trim(field)), task, lines[1..], today);
      if step.None? then None
      else
        var edited, rest := step.value.0, step.value.1;
        ConsumedAfterFirst(lines, step);
        if field in Fields then Some((edited, rest))
        else
          var r := EditFields(edited, rest, today);
          ConsumedTrans(lines, rest, r);
          r
  }

  /** A field name reads as itself once trimmed and lower-cased. */
  lemma FieldNameFixed(f: string)
    ensures f in Fields ==> Lowercase(Trim(f)) == f
  {
    if f in Fields {
      assert f == "priority" || f == "date" || f == "time" || f == "task";
      assert IsLowerWord(f);
      TrimUnchanged(f);
      LowercaseOfWord(f);
    }
  }

  /** A line that lower-cases to a field name edits that field, and the loop ends. */
  lemma EditFieldsStop(task: Task, lines: seq<string>, today: Date)
    requires WellFormed(task) && ValidDate(today)
    requires lines != [] && Lowercase(lines[0]) in Fields
    ensures EditFields(task, lines, today) == EditField(Lowercase(lines[0]), task, lines[1..], today)
  {
    FieldNameFixed(Lowercase(lines[0]));
  }

  /** A line that names no field ("Invalid field") changes nothing, and the loop asks again. */
  lemma EditFieldsUnknown(task: Task, lines: seq<string>, today: Date)
    requires WellFormed(task) && ValidDate(today)
    requires lines != [] && Lowercase(Trim(Lowercase(lines[0]))) !in Fields
    ensures EditFields(task, lines, today) == EditFields(task, lines[1..], today)
  {
    FieldNameFixed(Lowercase(lines[0]));
  }

  /**
    A field name with blanks around it edits that field, but the loop, which
    tests the untrimmed line, asks for a field again.
   */
  lemma EditFieldsAgain(task: Task, lines: seq<string>, today: Date, key: string)
    requires WellFormed(task) && ValidDate(today)
    requires lines != [] && key == Lowercase(Trim(Lowercase(lines[0])))
    requires key in Fields && Lowercase(lines[0]) !in Fields
    ensures EditField(key, task, lines[1..], today).None? ==> EditFields(task, lines, today).None?
    ensures EditField(key, task, lines[1..], today).Some? ==>
      EditFields(task, lines, today)
        == EditFields(EditField(key, task, lines[1..], today).value.0, EditField(key, task, lines[1..], today).value.1, today)
  {
  }

  /** editTaskRecursion: re-prompt until a line selects a task, then edit that task's fields. */
  function EditPick(tasks: seq<Task>, lines: seq<string>, today: Date): (r: Option<Step>)
    requires AllWellFormed(tasks) && ValidDate(today)
    ensures r.Some? ==> |r.value.tasks| == |tasks| && Consumed(lines, r.value.rest)
    decreases |lines|
  {
    if lines == [] then None
    else match TaskIndex(Trim(lines[0]), |tasks|)
      case None => EditPick(tasks, lines[1..], today)
      case Some(i) =>
        match EditFields(tasks[i], lines[1..], today)
        case None => None
        case Some((task, rest)) => Some(Step(tasks[i := task], rest))
  }

  /**
    An edit is the first selecting line's task run through the field loop:
    it succeeds exactly when a line selects a task and the field loop ends,
    and then that task is replaced and every other task stays as it was.
   */
  lemma {:induction false} EditPickChangesOne(tasks: seq<Task>, lines: seq<string>, today: Date)
    requires AllWellFormed(tasks) && ValidDate(today)
    ensures EditPick(tasks, lines, today) ==
      match ChosenTask(|tasks|, lines)
      case None => None
      case Some((i, after)) =>
        match EditFields(tasks[i], after, today)
        case None => None
        case Some((task, rest)) => Some(Step(tasks[i := task], rest))
    decreases |lines|
  {
    if lines != [] && TaskIndex(Trim(lines[0]), |tasks|).None? {
      EditPickChangesOne(tasks, lines[1..], today);
    }
  }

  lemma EditPickWellFormed(tasks: seq<Task>, lines: seq<string>, today: Date)
    requires AllWellFormed(tasks) && ValidDate(today)
    ensures EditPick(tasks, lines, today).Some? ==> AllWellFormed(EditPick(tasks, lines, today).value.tasks)
  {
    EditPickChangesOne(tasks, lines, today);
  }

  // ---------------------------------------------------------------------------
  // delete
  // ---------------------------------------------------------------------------

  /** deleteTaskRecursion: re-prompt until a line selects a task, then remove it. */
  function DeletePick(tasks: seq<Task>, lines: seq<string>): (r: Option<Step>)
    ensures r.Some? ==> |r.value.tasks| == |tasks| - 1 && Consumed(lines, r.value.rest)
    decreases |lines|
  {
    if lines == [] then None
    else match TaskIndex(Trim(lines[0]), |tasks|)
      case None => DeletePick(tasks, lines[1..])
      case Some(i) => Some(Step(tasks[..i] + tasks[i + 1..], lines[1..]))
  }

  /**
    Deleting removes exactly the task the first valid number names: those
    before it keep their places, those after it move down by one.
   */
  lemma {:induction false} DeletePickRemovesOne(tasks: seq<Task>, lines: seq<string>)
    ensures DeletePick(tasks, lines).Some? <==> ChosenTask(|tasks|, lines).Some?
    ensures DeletePick(tasks, lines).Some? ==>
      var (i, after) := ChosenTask(|tasks|, lines).value;
      var s := DeletePick(tasks, lines).value;
      && s.rest == after
      && (forall j :: 0 <= j < i ==> s.tasks[j] == tasks[j])
      && (forall j :: i <= j < |s.tasks| ==> s.tasks[j] == tasks[j + 1])
    decreases |lines|
  {
    if lines != [] && TaskIndex(Trim(lines[0]), |tasks|).None? {
      DeletePickRemovesOne(tasks, lines[1..]);
    }
  }

  lemma DeletePickWellFormed(tasks: seq<Task>, lines: seq<string>)
    requires AllWellFormed(tasks)
    ensures DeletePick(tasks, lines).Some? ==> AllWellFormed(DeletePick(tasks, lines).value.tasks)
  {
    DeletePickRemovesOne(tasks, lines);
  }

  // ---------------------------------------------------------------------------
  // The command loop
  // ---------------------------------------------------------------------------

  /**
    How a run ends: `end` saves the list, or the input runs out and nothing is
    saved. `shown` is every table printed on the way, in order.
   */
  datatype Session = Saved(tasks: seq<Task>, shown: seq<seq<string>>) | Died(shown: seq<seq<string>>)

  function ShownFirst(table: seq<string>, s: Session): (r: Session)
    ensures r.shown == [table] + s.shown
    ensures r.Saved? <==> s.Saved?
    ensures r.Saved? ==> r.tasks == s.tasks
  {
    match s
    case Saved(tasks, shown) => Saved(tasks, [table] + shown)
    case Died(shown) => Died([table] + shown)
  }

  /** What follows a command that hands back a step: the loop goes on, or the run dies. */
  function Continue(r: Option<Step>, lines: seq<string>, today: Date): (s: Session)
    requires ValidDate(today)
    requires r.Some? ==> AllWellFormed(r.value.tasks) && Consumed(lines, r.value.rest)
    decreases |lines|, 0
  {
    match r
    case None => Died([])
    case Some(step) => Run(step.tasks, step.rest, today)
  }

  /** start: read a command word (trimmed, lower-cased) and dispatch on it. */
  function Run(tasks: seq<Task>, lines: seq<string>, today: Date): (s: Session)
    requires AllWellFormed(tasks) && ValidDate(today)
    ensures s.Saved? ==> AllWellFormed(s.tasks)
    decreases |lines|, 1
  {
    if lines == [] then Died([])
    else
      var command := Lowercase(Trim(lines[0]));
      var rest := lines[1..];
      if command == "add" then
        var r := AddFlow(tasks, rest, today);
        AddFlowWellFormed(tasks, rest, today);
        Continue(r, lines, today)
      else if command == "print" then
        ShownFirst(RenderTable(tasks), Run(tasks, rest, today))
      else if command == "edit" then
        if tasks == [] then Run(tasks, rest, today)
        else
          var r := EditPick(tasks, rest, today);
          EditPickWellFormed(tasks, rest, today);
          ShownFirst(RenderTable(tasks), Continue(r, lines, today))
      else if command == "delete" then
        if tasks == [] then Run(tasks, rest, today)
        else
          var r := DeletePick(tasks, rest);
          DeletePickWellFormed(tasks, rest);
          ShownFirst(RenderTable(tasks), Continue(r, lines, today))
      else if command == "end" then Saved(tasks, [])
      else Run(tasks, rest, today)
  }

  /**
    print, and edit or delete on a non-empty list, show the table before
    anything else; print then goes on with the list unchanged.
   */
  lemma RunShowsTableFirst(tasks: seq<Task>, lines: seq<string>, today: Date)
    requires AllWellFormed(tasks) && ValidDate(today) && lines != []
    requires || Lowercase(Trim(lines[0])) == "print"
             || (tasks != [] && (Lowercase(Trim(lines[0])) == "edit" || Lowercase(Trim(lines[0])) == "delete"))
    ensures Run(tasks, lines, today).shown != [] && Run(tasks, lines, today).shown[0] == RenderTable(tasks)
    ensures Lowercase(Trim(lines[0])) == "print" ==>
      && Run(tasks, lines, today).shown[1..] == Run(tasks, lines[1..], today).shown
      && (Run(tasks, lines, today).Saved? <==> Run(tasks, lines[1..], today).Saved?)
  {
  }

  /**
    An invalid action, and edit or delete on an empty list, change nothing:
    the loop reads the next command.
   */
  lemma RunSkips(tasks: seq<Task>, lines: seq<string>, today: Date)
    requires AllWellFormed(tasks) && ValidDate(today) && lines != []
    requires || Lowercase(Trim(lines[0])) !in ["add", "print", "edit", "delete", "end"]
             || (tasks == [] && (Lowercase(Trim(lines[0])) == "edit" || Lowercase(Trim(lines[0])) == "delete"))
    ensures Run(tasks, lines, today) == Run(tasks, lines[1..], today)
  {
  }

  /** end saves the list as it stands. */
  lemma RunEnds(tasks: seq<Task>, lines: seq<string>, today: Date)
    requires AllWellFormed(tasks) && ValidDate(today) && lines != [] && Lowercase(Trim(lines[0])) == "end"
    ensures Run(tasks, lines, today) == Saved(tasks, [])
  {
  }
}
