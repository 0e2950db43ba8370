/**
  The three input validators of the task list: priority, date and time.
  Each is modelled as one attempt on a trimmed line plus the re-prompting
  reader over the remaining input lines.
 */
module Validators {
  import opened Wrappers
  import opened Text
  import opened Calendar

  /** What remains of `lines` after some (possibly no) lines have been read. */
  predicate Suffix(lines: seq<string>, rest: seq<string>) {
    |rest| <= |lines| && rest == lines[|lines| - |rest|..]
  }

  /** What remains of `lines` after at least one line has been read. */
  predicate Consumed(lines: seq<string>, rest: seq<string>) {
    |rest| < |lines| && Suffix(lines, rest)
  }

  /** A reader that skipped the first line and then read on has consumed from `lines`. */
  lemma ConsumedAfterFirst<X>(lines: seq<string>, r: Option<(X, seq<string>)>)
    requires lines != [] && (r.Some? ==> Suffix(lines[1..], r.value.1))
    ensures r.Some? ==> Consumed(lines, r.value.1)
  {
    if r.Some? {
      var rest := r.value.1;
      assert lines[1..][|lines| - 1 - |rest|..] == lines[|lines| - |rest|..];
    }
  }

  /** Consuming from what is left after consuming from `lines` consumes from `lines`. */
  lemma ConsumedTrans<X>(lines: seq<string>, rest: seq<string>, r: Option<(X, seq<string>)>)
    requires Consumed(lines, rest)
    requires r.Some? ==> Consumed(rest, r.value.1)
    ensures r.Some? ==> Consumed(lines, r.value.1)
  {
    if r.Some? {
      assert rest[|rest| - |r.value.1|..] == lines[|lines| - |r.value.1|..];
    }
  }

  // ---------------------------------------------------------------------------
  // Priority
  // ---------------------------------------------------------------------------

  datatype Priority = Critical | High | Normal | Low

  /** The upper-case letter that selects a priority. */
  function PriorityLetter(p: Priority): char {
    match p
    case Critical => 'C'
    case High => 'H'
    case Normal => 'N'
    case Low => 'L'
  }

  /** inputPriority, one attempt: one letter of C, H, N, L in either case. */
  function TryPriority(input: string): (r: Option<Priority>)
    ensures r.Some? <==> |input| == 1 && input[0] in "CcHhNnLl"
    ensures r.Some? ==> input[0] == PriorityLetter(r.value) || input[0] == LowerChar(PriorityLetter(r.value))
  {
    if |input| != 1 then None
    else if input[0] == 'C' || input[0] == 'c' then Some(Critical)
    else if input[0] == 'H' || input[0] == 'h' then Some(High)
    else if input[0] == 'N' || input[0] == 'n' then Some(Normal)
    else if input[0] == 'L' || input[0] == 'l' then Some(Low)
    else None
  }

  /** The colour code of a priority's marker. */
  function PriorityColor(p: Priority): string {
    match p
    case Critical => Red
    case High => Yellow
    case Normal => Green
    case Low => Blue
  }

  /** The marker stored for a priority. */
  function PriorityMarker(p: Priority): string {
    ColorBlock(PriorityColor(p))
  }

  /** The four priority markers are pairwise different. */
  lemma PriorityMarkersDistinct(p: Priority, q: Priority)
    requires PriorityMarker(p) == PriorityMarker(q)
    ensures p == q
  {
    ColorBlockInjective(PriorityColor(p), PriorityColor(q));
  }

  /** inputPriority: read lines until one, trimmed, is a priority letter. */
  function ReadPriority(lines: seq<string>): (r: Option<(Priority, seq<string>)>)
    ensures r.Some? ==> Consumed(lines, r.value.1)
    decreases |lines|
  {
    if lines == [] then None
    else match TryPriority(Trim(lines[0]))
      case Some(p) => Some((p, lines[1..]))
      case None => ReadPriority(lines[1..])
  }

  /** The reader returns the first line that is a priority, and the lines after it. */
  lemma {:induction false} ReadPriorityFirst(lines: seq<string>, k: nat)
    requires k < |lines| && TryPriority(Trim(lines[k])).Some?
    requires forall j :: 0 <= j < k ==> TryPriority(Trim(lines[j])).None?
    ensures ReadPriority(lines) == Some((TryPriority(Trim(lines[k])).value, lines[k + 1..]))
  {
    if k > 0 {
      ReadPriorityFirst(lines[1..], k - 1);
      assert lines[1..][k - 1 + 1..] == lines[k + 1..];
    }
  }

  /** Without any priority line the reader runs out of input. */
  lemma {:induction false} ReadPriorityNone(lines: seq<string>)
    requires forall j :: 0 <= j < |lines| ==> TryPriority(Trim(lines[j])).None?
    ensures ReadPriority(lines) == None
  {
    if lines != [] {
      ReadPriorityNone(lines[1..]);
    }
  }

  // ---------------------------------------------------------------------------
  // Fixed-width decimal printing
  // ---------------------------------------------------------------------------

  /** Two decimal digits, zero first if needed. */
  function Two(n: nat): (r: string)
    requires n < 100
    ensures |r| == 2 && IsDigits(r)
  {
    [DigitChar(n / 10), DigitChar(n % 10)]
  }

  /** Four decimal digits, zeros first if needed. */
  function Four(n: nat): (r: string)
    requires n < 10000
    ensures |r| == 4 && IsDigits(r)
  {
    [DigitChar(n / 1000), DigitChar(n / 100 % 10), DigitChar(n / 10 % 10), DigitChar(n % 10)]
  }

  /** String.padStart(width, '0'). */
  function ZeroPad(s: string, width: nat): (r: string)
    ensures |r| == if |s| < width then width else |s|
  {
    if |s| < width then seq(width - |s|, _ => '0') + s else s
  }

  /** The numeric value of one digit character. */
  function DigitValue(c: char): int { c as int - '0' as int }

  lemma DigitsValueOne(f: string)
    requires |f| == 1 && IsDigits(f)
    ensures DigitsValue(f) == DigitValue(f[0])
  {
    assert f[..0] == [];
  }

  lemma DigitsValueTwo(f: string)
    requires |f| == 2 && IsDigits(f)
    ensures DigitsValue(f) == 10 * DigitValue(f[0]) + DigitValue(f[1])
  {
    DigitsValueOne(f[..1]);
  }

  lemma DigitsValueFour(f: string)
    requires |f| == 4 && IsDigits(f)
    ensures DigitsValue(f) == 1000 * DigitValue(f[0]) + 100 * DigitValue(f[1]) + 10 * DigitValue(f[2]) + DigitValue(f[3])
  {
    DigitsValueTwo(f[..2]);
    assert f[..3][..2] == f[..2];
  }

  lemma DigitCharValue(c: char)
    requires IsDigit(c)
    ensures DigitChar(DigitValue(c) as nat) == c
  {
  }

  /** Printing the value of a one- or two-digit field on two digits zero-pads the field. */
  lemma TwoOfField(f: string)
    requires IsDigits(f) && 1 <= |f| <= 2
    ensures DigitsValue(f) < 100 && Two(DigitsValue(f)) == ZeroPad(f, 2)
  {
    if |f| == 1 {
      DigitsValueOne(f);
      DigitCharValue(f[0]);
      var v := DigitsValue(f);
      assert v / 10 == 0 && v % 10 == v;
      assert Two(v) == ['0', f[0]];
      assert seq(1, _ => '0') == ['0'];
      assert ZeroPad(f, 2) == ['0'] + f;
    } else {
      DigitsValueTwo(f);
      var v, d0, d1 := DigitsValue(f), DigitValue(f[0]), DigitValue(f[1]);
      assert v / 10 == d0 && v % 10 == d1;
      DigitCharValue(f[0]);
      DigitCharValue(f[1]);
    }
  }

  /** Printing the value of a four-digit field on four digits gives the field back. */
  lemma FourOfField(f: string)
    requires IsDigits(f) && |f| == 4
    ensures DigitsValue(f) < 10000 && Four(DigitsValue(f)) == f
  {
    DigitsValueFour(f);
    FourDigits(DigitValue(f[0]), DigitValue(f[1]), DigitValue(f[2]), DigitValue(f[3]));
    DigitCharValue(f[0]);
    DigitCharValue(f[1]);
    DigitCharValue(f[2]);
    DigitCharValue(f[3]);
  }

  /** Taking a four-digit number apart digit by digit. */
  lemma FourDigits(d0: int, d1: int, d2: int, d3: int)
    requires 0 <= d0 <= 9 && 0 <= d1 <= 9 && 0 <= d2 <= 9 && 0 <= d3 <= 9
    ensures var v := 1000 * d0 + 100 * d1 + 10 * d2 + d3;
      v / 1000 == d0 && v / 100 % 10 == d1 && v / 10 % 10 == d2 && v % 10 == d3
  {
    var v := 1000 * d0 + 100 * d1 + 10 * d2 + d3;
    assert v / 10 == 100 * d0 + 10 * d1 + d2;
    assert v / 100 == 10 * d0 + d1;
  }

  lemma TwoValue(n: nat)
    requires n < 100
    ensures DigitsValue(Two(n)) == n
  {
    DigitsValueTwo(Two(n));
  }

  lemma FourValue(n: nat)
    requires n < 10000
    ensures DigitsValue(Four(n)) == n
  {
    var a, b, c, d := n / 1000, n / 100 % 10, n / 10 % 10, n % 10;
    assert n / 100 == 10 * a + b;
    assert n / 10 == 10 * (n / 100) + c;
    assert n == 10 * (n / 10) + d;
    DigitsValueFour(Four(n));
  }

  // ---------------------------------------------------------------------------
  // Date
  // ---------------------------------------------------------------------------

  /** The pattern ^\d{1,2}<sep>\d{1,2}$ (used for the tail of a date and for a time). */
  predicate PairPattern(s: string, sep: char) {
    || (|s| >= 3 && IsDigit(s[0]) && s[1] == sep && |s| <= 4 && IsDigits(s[2..]))
    || (|s| >= 4 && IsDigits(s[..2]) && s[2] == sep && |s| <= 5 && IsDigits(s[3..]))
  }

  /** Where the separator of a PairPattern string is. */
  function PairSep(s: string, sep: char): (k: nat)
    requires PairPattern(s, sep)
    ensures 1 <= k <= 2 && k < |s| && s[k] == sep
  {
    if s[1] == sep then 1 else 2
  }

  /** The date pattern ^\d{4}-\d{1,2}-\d{1,2}$. */
  predicate DatePattern(s: string) {
    |s| >= 5 && IsDigits(s[..4]) && s[4] == '-' && PairPattern(s[5..], '-')
  }

  /** The year, month and day groups of a string matching the date pattern. */
  function DateGroups(s: string): (g: (string, string, string))
    requires DatePattern(s)
    ensures |g.0| == 4 && IsDigits(g.0)
    ensures 1 <= |g.1| <= 2 && IsDigits(g.1)
    ensures 1 <= |g.2| <= 2 && IsDigits(g.2)
    ensures s == g.0 + "-" + g.1 + "-" + g.2
  {
    var t := s[5..];
    var k := PairSep(t, '-');
    assert s == s[..4] + "-" + t[..k] + "-" + t[k + 1..];
    (s[..4], t[..k], t[k + 1..])
  }

  /** The date the groups of a well-formed date string denote. */
  function DateOf(s: string): Date
    requires DatePattern(s)
  {
    var g := DateGroups(s);
    Date(DigitsValue(g.0), DigitsValue(g.1), DigitsValue(g.2))
  }

  /** split("-") of a well-formed date string gives exactly its three groups. */
  lemma SplitDate(s: string)
    requires DatePattern(s)
    ensures var g := DateGroups(s); Split(s, '-') == [g.0, g.1, g.2]
  {
    var g := DateGroups(s);
    assert '-' !in g.0 && '-' !in g.1 && '-' !in g.2;
    SplitNone(g.2, '-');
    SplitFirst(g.1, '-', g.2);
    assert s == g.0 + ['-'] + (g.1 + ['-'] + g.2);
    SplitFirst(g.0, '-', g.1 + ['-'] + g.2);
  }

  /** The outcome of one attempt at reading a date or a time. */
  datatype Attempt<T> = Malformed | OutOfRange | Accepted(value: T)

  /**
    inputDate, one attempt: a string that does not match the pattern is
    Malformed; the split-and-parse result is OutOfRange when LocalDate rejects it.
   */
  function TryDate(input: string): (r: Attempt<Date>)
    ensures r.Malformed? <==> !DatePattern(input)
    ensures DatePattern(input) ==> (r.Accepted? <==> ValidDate(DateOf(input)))
    ensures r.Accepted? ==> r.value == DateOf(input) && ValidDate(r.value) && 0 <= r.value.year <= 9999
  {
    if !DatePattern(input) then Malformed
    else
      SplitDate(input);
      var parts := Split(input, '-');
      var g := DateGroups(input);
      ParseIntDigits(g.0);
      ParseIntDigits(g.1);
      ParseIntDigits(g.2);
      match (ParseInt(parts[0]), ParseInt(parts[1]), ParseInt(parts[2]))
      case (Some(y), Some(m), Some(d)) =>
        if ValidDate(Date(y, m, d)) then Accepted(Date(y, m, d)) else OutOfRange
      case _ => OutOfRange
  }

  /** LocalDate.toString for a four-digit year: yyyy-mm-dd. */
  function FormatDate(d: Date): (r: string)
    requires 0 <= d.year <= 9999 && 1 <= d.month <= 12 && 1 <= d.day <= 31
    ensures |r| == 10
  {
    Four(d.year) + "-" + Two(d.month) + "-" + Two(d.day)
  }

  /** The input with its month and day zero-padded to two digits. */
  function ZeroPaddedDate(s: string): string
    requires DatePattern(s)
  {
    var g := DateGroups(s);
    g.0 + "-" + ZeroPad(g.1, 2) + "-" + ZeroPad(g.2, 2)
  }

  /** An accepted date is printed as the input with month and day zero-padded. */
  lemma AcceptedDateFormat(input: string)
    requires TryDate(input).Accepted?
    ensures var d := TryDate(input).value;
      ValidDate(d) && 0 <= d.year <= 9999 && FormatDate(d) == ZeroPaddedDate(input)
  {
    var g := DateGroups(input);
    FourOfField(g.0);
    TwoOfField(g.1);
    TwoOfField(g.2);
  }

  /** A printed date is accepted again and denotes the same date. */
  lemma FormatDateAccepted(d: Date)
    requires ValidDate(d) && 0 <= d.year <= 9999
    ensures TryDate(FormatDate(d)) == Accepted(d)
  {
    var s := FormatDate(d);
    assert s[..4] == Four(d.year);
    assert s[5..] == Two(d.month) + "-" + Two(d.day);
    var g := DateGroups(s);
    assert g.0 == Four(d.year) && g.1 == Two(d.month) && g.2 == Two(d.day);
    FourValue(d.year);
    TwoValue(d.month);
    TwoValue(d.day);
  }

  /** The date inputDate returns when a well-formed date is out of range. */
  const FallbackDate: Date := Date(1999, 12, 31)

  /**
    inputDate: skip malformed lines; the first well-formed one is returned when
    valid; when it is out of range, the re-prompt reads on but its answer is
    dropped and the fallback date is returned.
   */
  function ReadDate(lines: seq<string>): (r: Option<(Date, seq<string>)>)
    ensures r.Some? ==> ValidDate(r.value.0) && 0 <= r.value.0.year <= 9999
    ensures r.Some? ==> Consumed(lines, r.value.1)
    decreases |lines|
  {
    if lines == [] then None
    else
      var attempt := TryDate(Trim(lines[0]));
      match attempt
      case Accepted(d) => Some((d, lines[1..]))
      case Malformed =>
        var r := ReadDate(lines[1..]);
        ConsumedAfterFirst(lines, r);
        r
      case OutOfRange =>
        var r := ReadDate(lines[1..]);
        ConsumedAfterFirst(lines, r);
        match r
        case None => None
        case Some((_, rest)) => Some((FallbackDate, rest))
  }

  /**
    The first well-formed line decides the date: its own date when valid,
    otherwise 1999-12-31, provided the re-prompt gets an answer at all.
   */
  lemma {:induction false} ReadDateFirstWellFormed(lines: seq<string>, k: nat)
    requires k < |lines| && !TryDate(Trim(lines[k])).Malformed?
    requires forall j :: 0 <= j < k ==> TryDate(Trim(lines[j])).Malformed?
    ensures TryDate(Trim(lines[k])).Accepted? ==>
      ReadDate(lines) == Some((TryDate(Trim(lines[k])).value, lines[k + 1..]))
    ensures TryDate(Trim(lines[k])).OutOfRange? ==>
      ReadDate(lines) == (if ReadDate(lines[k + 1..]).Some?
                          then Some((FallbackDate, ReadDate(lines[k + 1..]).value.1))
                          else None)
  {
    if k > 0 {
      var tail := lines[1..];
      assert ReadDate(lines) == ReadDate(tail);
      forall j | 0 <= j < k - 1
        ensures TryDate(Trim(tail[j])).Malformed?
      {
        assert tail[j] == lines[j + 1];
      }
      assert tail[k - 1] == lines[k];
      ReadDateFirstWellFormed(tail, k - 1);
      assert tail[k..] == lines[k + 1..];
    }
  }

  /** Without any well-formed date line the reader runs out of input: inputDate returns only after a line matches. */
  lemma {:induction false} ReadDateNone(lines: seq<string>)
    requires forall j :: 0 <= j < |lines| ==> TryDate(Trim(lines[j])).Malformed?
    ensures ReadDate(lines) == None
    decreases |lines|
  {
    if lines != [] {
      var tail := lines[1..];
      forall j | 0 <= j < |tail|
        ensures TryDate(Trim(tail[j])).Malformed?
      {
        assert tail[j] == lines[j + 1];
      }
      ReadDateNone(tail);
    }
  }

  // ---------------------------------------------------------------------------
  // Time
  // ---------------------------------------------------------------------------

  datatype Time = Time(hour: int, minute: int)

  /** LocalTime(hour, minute) is constructed without an exception exactly for these. */
  predicate ValidTime(t: Time) {
    0 <= t.hour <= 23 && 0 <= t.minute <= 59
  }

  /** The time pattern ^\d{1,2}:\d{1,2}$. */
  predicate TimePattern(s: string) {
    PairPattern(s, ':')
  }

  /** The hour and minute groups of a string matching the time pattern. */
  function TimeGroups(s: string): (g: (string, string))
    requires TimePattern(s)
    ensures 1 <= |g.0| <= 2 && IsDigits(g.0)
    ensures 1 <= |g.1| <= 2 && IsDigits(g.1)
    ensures s == g.0 + ":" + g.1
  {
    var k := PairSep(s, ':');
    assert s == s[..k] + ":" + s[k + 1..];
    (s[..k], s[k + 1..])
  }

  function TimeOf(s: string): Time
    requires TimePattern(s)
  {
    var g := TimeGroups(s);
    Time(DigitsValue(g.0), DigitsValue(g.1))
  }

  /** split(":") of a well-formed time string gives exactly its two groups. */
  lemma SplitTime(s: string)
    requires TimePattern(s)
    ensures var g := TimeGroups(s); Split(s, ':') == [g.0, g.1]
  {
    var g := TimeGroups(s);
    assert ':' !in g.0 && ':' !in g.1;
    SplitNone(g.1, ':');
    SplitFirst(g.0, ':', g.1);
  }

  /** inputTime, one attempt. */
  function TryTime(input: string): (r: Attempt<Time>)
    ensures r.Malformed? <==> !TimePattern(input)
    ensures TimePattern(input) ==> (r.Accepted? <==> ValidTime(TimeOf(input)))
    ensures r.Accepted? ==> r.value == TimeOf(input)
  {
    if !TimePattern(input) then Malformed
    else
      SplitTime(input);
      var parts := Split(input, ':');
      var g := TimeGroups(input);
      ParseIntDigits(g.0);
      ParseIntDigits(g.1);
      match (ParseInt(parts[0]), ParseInt(parts[1]))
      case (Some(h), Some(m)) =>
        if ValidTime(Time(h, m)) then Accepted(Time(h, m)) else OutOfRange
      case _ => OutOfRange
  }

  /** LocalTime.toString for a time on a whole minute: hh:mm. */
  function FormatTime(t: Time): (r: string)
    requires ValidTime(t)
    ensures |r| == 5
  {
    Two(t.hour) + ":" + Two(t.minute)
  }

  /** The input with hour and minute zero-padded to two digits. */
  function ZeroPaddedTime(s: string): string
    requires TimePattern(s)
  {
    var g := TimeGroups(s);
    ZeroPad(g.0, 2) + ":" + ZeroPad(g.1, 2)
  }

  /** An accepted time is printed as the input with hour and minute zero-padded. */
  lemma AcceptedTimeFormat(input: string)
    requires TryTime(input).Accepted?
    ensures ValidTime(TryTime(input).value) && FormatTime(TryTime(input).value) == ZeroPaddedTime(input)
  {
    var g := TimeGroups(input);
    TwoOfField(g.0);
    TwoOfField(g.1);
  }

  /** A printed time is accepted again and denotes the same time. */
  lemma FormatTimeAccepted(t: Time)
    requires ValidTime(t)
    ensures TryTime(FormatTime(t)) == Accepted(t)
  {
    var s := FormatTime(t);
    var g := TimeGroups(s);
    assert g.0 == Two(t.hour) && g.1 == Two(t.minute);
    TwoValue(t.hour);
    TwoValue(t.minute);
  }

  /** The time inputTime returns when a well-formed time is out of range. */
  const FallbackTime: Time := Time(12, 0)

  /** inputTime: the same re-prompting as inputDate, with 12:00 as the fallback. */
  function ReadTime(lines: seq<string>): (r: Option<(Time, seq<string>)>)
    ensures r.Some? ==> ValidTime(r.value.0)
    ensures r.Some? ==> Consumed(lines, r.value.1)
    decreases |lines|
  {
    if lines == [] then None
    else match TryTime(Trim(lines[0]))
      case Accepted(t) => Some((t, lines[1..]))
      case Malformed =>
        var r := ReadTime(lines[1..]);
        ConsumedAfterFirst(lines, r);
        r
      case OutOfRange =>
        var r := ReadTime(lines[1..]);
        ConsumedAfterFirst(lines, r);
        match r
        case None => None
        case Some((_, rest)) => Some((FallbackTime, rest))
  }

  /** The first well-formed line decides the time: its own when in range, otherwise 12:00. */
  lemma {:induction false} ReadTimeFirstWellFormed(lines: seq<string>, k: nat)
    requires k < |lines| && !TryTime(Trim(lines[k])).Malformed?
    requires forall j :: 0 <= j < k ==> TryTime(Trim(lines[j])).Malformed?
    ensures TryTime(Trim(lines[k])).Accepted? ==>
      ReadTime(lines) == Some((TryTime(Trim(lines[k])).value, lines[k + 1..]))
    ensures TryTime(Trim(lines[k])).OutOfRange? ==>
      ReadTime(lines) == (if ReadTime(lines[k + 1..]).Some?
                          then Some((FallbackTime, ReadTime(lines[k + 1..]).value.1))
                          else None)
  {
    if k > 0 {
      var tail := lines[1..];
      assert ReadTime(lines) == ReadTime(tail);
      forall j | 0 <= j < k - 1
        ensures TryTime(Trim(tail[j])).Malformed?
      {
        assert tail[j] == lines[j + 1];
      }
      assert tail[k - 1] == lines[k];
      ReadTimeFirstWellFormed(tail, k - 1);
      assert tail[k..] == lines[k + 1..];
    }
  }

  /** Without any well-formed time line the reader runs out of input: inputTime returns only after a line matches. */
  lemma {:induction false} ReadTimeNone(lines: seq<string>)
    requires forall j :: 0 <= j < |lines| ==> TryTime(Trim(lines[j])).Malformed?
    ensures ReadTime(lines) == None
    decreases |lines|
  {
    if lines != [] {
      var tail := lines[1..];
      forall j | 0 <= j < |tail|
        ensures TryTime(Trim(tail[j])).Malformed?
      {
        assert tail[j] == lines[j + 1];
      }
      ReadTimeNone(tail);
    }
  }
}
