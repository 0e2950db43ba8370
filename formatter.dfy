/**
  The fixed-width rendering of the task list: how a body line is cut into
  44-character pieces and framed into a body cell (by addTask and by the
  `task` field of editTasks), how such a cell reads back, and printTasks.
 */
module Formatter {
  import opened Text

  /** The width of the Task column. */
  const BodyWidth: nat := 44

  /** The empty N, Date, Time, P and D columns that open every continuation line. */
  const Gutter: string := "|    |            |       |   |   |"

  /** What joinToString puts between two pieces of one line: close the row, new line, gutter. */
  const Joint: string := "|\n" + Gutter

  // ---------------------------------------------------------------------------
  // Body cells
  // ---------------------------------------------------------------------------

  /** The pieces of a line with the last one padded with blanks to the full width. */
  function PadLast(chunks: seq<string>): (r: seq<string>)
    requires chunks != []
    ensures |r| == |chunks|
  {
    chunks[..|chunks| - 1] + [PadEnd(chunks[|chunks| - 1], BodyWidth)]
  }

  /** The cell addTask stores for the first body line (already trimmed). */
  function FirstBodyCell(line: string): string {
    if |line| > BodyWidth then "|" + Join(PadLast(Chunked(line, BodyWidth)), Joint) + "|"
    else "|" + PadEnd(line, BodyWidth) + "|"
  }

  /** The cell addTask stores for every later body line: it starts on a new table line. */
  function NextBodyCell(line: string): string {
    if |line| > BodyWidth then "\n" + Gutter + Join(PadLast(Chunked(line, BodyWidth)), Joint) + "|"
    else "\n" + Gutter + PadEnd(line, BodyWidth) + "|"
  }

  /** The cell the `task` field of editTasks stores for the first new line: a long line is not padded. */
  function EditFirstBodyCell(line: string): string {
    if |line| > BodyWidth then "|" + Join(Chunked(line, BodyWidth), Joint) + "|"
    else "|" + PadEnd(line, BodyWidth) + "|"
  }

  /** The cell editTasks stores for a later new line: a long line is neither padded nor closed. */
  function EditNextBodyCell(line: string): string {
    if |line| > BodyWidth then "\n" + Gutter + Join(Chunked(line, BodyWidth), Joint)
    else "\n" + Gutter + PadEnd(line, BodyWidth) + "|"
  }

  /** The 44-wide pieces addTask makes of a non-empty line. */
  function Segments(line: string): seq<string>
    requires line != []
  {
    PadLast(Chunked(line, BodyWidth))
  }

  /** The pieces of a line joined into the text that goes between a cell's frame. */
  function Wrap(line: string): string
    requires line != []
  {
    Join(Segments(line), Joint)
  }

  lemma {:induction false} ChunkCount(s: string)
    ensures |Chunked(s, BodyWidth)| == (|s| + BodyWidth - 1) / BodyWidth
    decreases |s|
  {
    if |s| > BodyWidth {
      ChunkCount(s[BodyWidth..]);
    }
  }

  lemma {:induction false} ConcatWidth(parts: seq<string>)
    requires forall i :: 0 <= i < |parts| ==> |parts[i]| == BodyWidth
    ensures |Concat(parts)| == BodyWidth * |parts|
  {
    if parts != [] {
      ConcatWidth(parts[1..]);
    }
  }

  /**
    Every piece of a non-empty line is exactly 44 wide; there are
    max(1, ceil(len / 44)) of them; together they are the line followed by blanks.
   */
  lemma SegmentsShape(line: string)
    requires line != []
    ensures forall i :: 0 <= i < |Segments(line)| ==> |Segments(line)[i]| == BodyWidth
    ensures |Segments(line)| == (|line| + BodyWidth - 1) / BodyWidth
    ensures |line| <= BodyWidth * |Segments(line)|
    ensures Concat(Segments(line)) == line + Spaces(BodyWidth * |Segments(line)| - |line|)
  {
    var segs := Segments(line);
    ChunkCount(line);
    SegmentsWidth(line);
    ConcatWidth(segs);
    SegmentsConcat(line);
  }

  /** Every piece of a non-empty line, the padded last one included, is 44 wide. */
  lemma SegmentsWidth(line: string)
    requires line != []
    ensures forall i :: 0 <= i < |Segments(line)| ==> |Segments(line)[i]| == BodyWidth
  {
    var chunks := Chunked(line, BodyWidth);
    var segs := Segments(line);
    ChunkedPieces(line, BodyWidth);
    forall i | 0 <= i < |segs|
      ensures |segs[i]| == BodyWidth
    {
      if i < |segs| - 1 {
        assert segs[i] == chunks[i];
      }
    }
  }

  /** Put together, the pieces of a line are the line and the last piece's padding. */
  lemma SegmentsConcat(line: string)
    requires line != []
    ensures var chunks := Chunked(line, BodyWidth); var last := chunks[|chunks| - 1];
      |last| <= BodyWidth && Concat(Segments(line)) == line + Spaces(BodyWidth - |last|)
  {
    ChunkedPieces(line, BodyWidth);
    var chunks := Chunked(line, BodyWidth);
    var n := |chunks|;
    var init, last := chunks[..n - 1], chunks[n - 1];
    var padded := PadEnd(last, BodyWidth);
    assert chunks == init + [last];
    ConcatAppend(init, [last]);
    ConcatAppend(init, [padded]);
    assert Concat([last]) == last;
    assert Concat([padded]) == padded;
    assert padded == last + Spaces(BodyWidth - |last|);
  }

  /** A line of at most 44 characters is one padded piece. */
  lemma ShortSegments(line: string)
    requires 0 < |line| <= BodyWidth
    ensures Segments(line) == [PadEnd(line, BodyWidth)]
    ensures Wrap(line) == PadEnd(line, BodyWidth)
  {
  }

  /** Both branches of addTask frame the same wrapped text: "|" ... "|" first, new line and gutter later. */
  lemma BodyCellsFrameWrap(line: string)
    requires line != []
    ensures FirstBodyCell(line) == "|" + Wrap(line) + "|"
    ensures NextBodyCell(line) == "\n" + Gutter + Wrap(line) + "|"
  {
    if |line| <= BodyWidth {
      ShortSegments(line);
    }
  }

  // ---------------------------------------------------------------------------
  // Reading a body cell back
  // ---------------------------------------------------------------------------

  /** The pieces of wrapped text: every 44 characters, skip the joint. */
  function Unjoin(text: string): seq<string>
    decreases |text|
  {
    if |text| <= BodyWidth + |Joint| then [text]
    else [text[..BodyWidth]] + Unjoin(text[BodyWidth + |Joint|..])
  }

  /** Unjoin undoes Join for pieces that are 44 wide except the last, which is at most 44 wide. */
  lemma {:induction false} UnjoinJoin(parts: seq<string>)
    requires parts != []
    requires forall i :: 0 <= i < |parts| ==> 0 < |parts[i]| <= BodyWidth
    requires forall i :: 0 <= i < |parts| - 1 ==> |parts[i]| == BodyWidth
    ensures Unjoin(Join(parts, Joint)) == parts
  {
    if |parts| > 1 {
      var rest := Join(parts[1..], Joint);
      UnjoinJoin(parts[1..]);
      JoinStart(parts[1..]);
      var text := parts[0] + Joint + rest;
      assert |Joint| == 37;
      assert text[..BodyWidth] == parts[0];
      assert text[BodyWidth + |Joint|..] == rest;
    }
  }

  lemma JoinStart(parts: seq<string>)
    requires parts != []
    ensures |Join(parts, Joint)| >= |parts[0]|
  {
  }

  /** Drop the blanks at the end of a string. */
  function DropTrailingBlanks(s: string): (r: string)
    ensures r == [] || r[|r| - 1] != ' '
  {
    if s != [] && s[|s| - 1] == ' ' then DropTrailingBlanks(s[..|s| - 1]) else s
  }

  lemma {:induction false} DropTrailingBlanksPadding(s: string, n: nat)
    ensures DropTrailingBlanks(s + Spaces(n)) == DropTrailingBlanks(s)
    decreases n
  {
    if n > 0 {
      assert (s + Spaces(n))[..|s| + n - 1] == s + Spaces(n - 1);
      DropTrailingBlanksPadding(s, n - 1);
    } else {
      assert s + Spaces(0) == s;
    }
  }

  /** The body line wrapped text stands for: the pieces put together, padding removed. */
  function Unwrap(text: string): string {
    DropTrailingBlanks(Concat(Unjoin(text)))
  }

  /** A body line with no blank at its end (as a trimmed line) is read back from its wrapped text. */
  lemma WrapRoundTrip(line: string)
    requires line != [] && line[|line| - 1] != ' '
    ensures Unwrap(Wrap(line)) == line
  {
    var segs := Segments(line);
    assert |line| <= BodyWidth * |segs| by { SegmentsShape(line); }
    var pad: nat := BodyWidth * |segs| - |line|;
    assert Unjoin(Wrap(line)) == segs by {
      SegmentsShape(line);
      UnjoinJoin(segs);
    }
    assert Concat(segs) == line + Spaces(pad) by { SegmentsShape(line); }
    assert DropTrailingBlanks(line + Spaces(pad)) == line by { DropTrailingBlanksPadding(line, pad); }
  }

  /** Every non-blank trimmed line survives addTask's wrapping. */
  lemma TrimmedWrapRoundTrip(raw: string)
    requires !IsBlank(raw)
    ensures Trim(raw) != [] && Unwrap(Wrap(Trim(raw))) == Trim(raw)
  {
    WrapRoundTrip(Trim(raw));
  }

  /** The pieces editTasks makes of a non-empty line: the plain chunks when long, one padded piece when short. */
  function EditPieces(line: string): seq<string>
    requires line != []
  {
    if |line| > BodyWidth then Chunked(line, BodyWidth) else [PadEnd(line, BodyWidth)]
  }

  /**
    editTasks frames the joined EditPieces: with the closing bar, except after
    the first line when the line is long.
   */
  lemma EditCellsFrame(line: string)
    requires line != []
    ensures EditFirstBodyCell(line) == "|" + Join(EditPieces(line), Joint) + "|"
    ensures |line| <= BodyWidth ==> EditNextBodyCell(line) == "\n" + Gutter + Join(EditPieces(line), Joint) + "|"
    ensures |line| > BodyWidth ==> EditNextBodyCell(line) == "\n" + Gutter + Join(EditPieces(line), Joint)
  {
  }

  lemma ChunkedUnjoin(line: string)
    requires |line| > BodyWidth
    ensures Unjoin(Join(Chunked(line, BodyWidth), Joint)) == Chunked(line, BodyWidth)
  {
    ChunkedPieces(line, BodyWidth);
    UnjoinJoin(Chunked(line, BodyWidth));
  }

  /** Reading back what editTasks stores gives the line as typed (untrimmed), less any blanks at its end. */
  lemma EditCellsRoundTrip(line: string)
    requires line != []
    ensures Unwrap(Join(EditPieces(line), Joint)) == DropTrailingBlanks(line)
  {
    if |line| > BodyWidth {
      ChunkedUnjoin(line);
    } else {
      var pad: nat := BodyWidth - |line|;
      DropTrailingBlanksPadding(line, pad);
      var padded := PadEnd(line, BodyWidth);
      assert padded == line + Spaces(pad);
      assert Join([padded], Joint) == padded;
      assert Unjoin(padded) == [padded];
      assert Concat([padded]) == padded;
    }
  }

  /** For a line of at most 44 characters editTasks stores what addTask stores. */
  lemma EditCellsShortAgree(line: string)
    requires |line| <= BodyWidth
    ensures EditFirstBodyCell(line) == FirstBodyCell(line)
    ensures EditNextBodyCell(line) == NextBodyCell(line)
  {
  }

  lemma {:induction false} JoinLength(parts: seq<string>)
    requires parts != []
    ensures |Join(parts, Joint)| == |Concat(parts)| + |Joint| * (|parts| - 1)
  {
    if |parts| > 1 {
      JoinLength(parts[1..]);
    }
  }

  /**
    A long line whose length is not a multiple of 44 gets a shorter cell from
    editTasks than from addTask: its last piece is not padded, and a later line's
    cell also lacks the closing bar.
   */
  lemma EditCellsShorter(line: string)
    requires |line| > BodyWidth
    ensures |line| % BodyWidth != 0 ==> |EditFirstBodyCell(line)| < |FirstBodyCell(line)|
    ensures |EditNextBodyCell(line)| < |NextBodyCell(line)|
  {
    var chunks := Chunked(line, BodyWidth);
    var segs := Segments(line);
    SegmentsShape(line);
    JoinLength(chunks);
    JoinLength(segs);
    ChunkCount(line);
    assert |Concat(segs)| == BodyWidth * |segs|;
    assert |line| % BodyWidth != 0 ==> |line| < BodyWidth * |segs|;
  }

  // ---------------------------------------------------------------------------
  // printTasks
  // ---------------------------------------------------------------------------

  const Border: string := "+----+------------+-------+---+---+--------------------------------------------+"
  const Heading: string := "| N  |    Date    | Time  | P | D |                   Task                     |"
  const NoTasks: string := "No tasks have been input"

  /** What printTasks prints before row i's cells: the 1-based number, boxed for rows 1 to 9 only. */
  function RowLabel(i: nat): string {
    if i < 9 then "| " + NatToString(i + 1) + "  " else NatToString(i + 1) + " "
  }

  /** The printed row of task i: its label and all its cells one after the other. */
  function RowLine(i: nat, task: seq<string>): string {
    RowLabel(i) + Concat(task)
  }

  /** The border and row of every task, in order. */
  function RowBlocks(tasks: seq<seq<string>>): seq<string> {
    if tasks == [] then []
    else RowBlocks(tasks[..|tasks| - 1]) + [Border, RowLine(|tasks| - 1, tasks[|tasks| - 1])]
  }

  /** Everything printTasks prints, one element per println. */
  function RenderTable(tasks: seq<seq<string>>): seq<string> {
    if tasks == [] then [NoTasks]
    else [Border + "\n" + Heading] + RowBlocks(tasks) + [Border]
  }

  lemma {:induction false} RowBlocksShape(tasks: seq<seq<string>>)
    ensures |RowBlocks(tasks)| == 2 * |tasks|
    ensures forall i :: 0 <= i < |tasks| ==>
      RowBlocks(tasks)[2 * i] == Border && RowBlocks(tasks)[2 * i + 1] == RowLine(i, tasks[i])
  {
    if tasks != [] {
      var n := |tasks|;
      var init := tasks[..n - 1];
      var blocks := RowBlocks(tasks);
      var head := RowBlocks(init);
      RowBlocksShape(init);
      assert blocks == head + [Border, RowLine(n - 1, tasks[n - 1])];
      forall i | 0 <= i < n
        ensures blocks[2 * i] == Border && blocks[2 * i + 1] == RowLine(i, tasks[i])
      {
        if i < n - 1 {
          assert init[i] == tasks[i];
          assert blocks[2 * i] == head[2 * i];
          assert blocks[2 * i + 1] == head[2 * i + 1];
        }
      }
    }
  }

  /**
    A non-empty list prints the heading, then for task i a border and its row,
    then a closing border; the empty list prints one message.
   */
  lemma RenderTableShape(tasks: seq<seq<string>>)
    ensures tasks == [] ==> RenderTable(tasks) == [NoTasks]
    ensures tasks != [] ==> |RenderTable(tasks)| == 2 * |tasks| + 2
    ensures tasks != [] ==> RenderTable(tasks)[0] == Border + "\n" + Heading
    ensures tasks != [] ==> RenderTable(tasks)[2 * |tasks| + 1] == Border
    ensures forall i :: 0 <= i < |tasks| ==>
      RenderTable(tasks)[2 * i + 1] == Border && RenderTable(tasks)[2 * i + 2] == RowLine(i, tasks[i])
  {
    RowBlocksShape(tasks);
  }

  /**
    Rows 1 to 9 start with a label as wide as the heading's N column; from row
    10 on the label loses its bar and, up to row 99, is two characters narrower.
   */
  lemma RowLabelAlignment(i: nat)
    ensures i < 9 ==> |RowLabel(i)| == |"| N  "| && RowLabel(i)[0] == '|'
    ensures 9 <= i < 99 ==> |RowLabel(i)| == |"| N  "| - 2 && RowLabel(i)[0] != '|'
  {
    if 9 <= i < 99 {
      assert |NatToString(i + 1)| == 2;
    }
  }
}
