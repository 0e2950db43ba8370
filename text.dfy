/**
  The parts of Kotlin's string library (on the JVM) that the task list relies on:
  trim / isBlank, padEnd, chunked, joinToString, split, lowercase, String.toInt
  and Int.toString, plus the ANSI colour blocks used as markers.
 */
module Text {
  import opened Wrappers

  // ---------------------------------------------------------------------------
  // Whitespace, trim and isBlank
  // ---------------------------------------------------------------------------

  /** Kotlin's Char.isWhitespace: Character.isWhitespace(c) || Character.isSpaceChar(c). */
  predicate IsWhitespace(c: char) {
    || ('\t' <= c <= '\r')
    || ('\U{1C}' <= c <= '\U{1F}')
    || c == ' '
    || c == '\U{A0}'
    || c == '\U{1680}'
    || ('\U{2000}' <= c <= '\U{200A}')
    || c == '\U{2028}' || c == '\U{2029}' || c == '\U{202F}'
    || c == '\U{205F}' || c == '\U{3000}'
  }

  /** CharSequence.isBlank: empty, or whitespace only. */
  predicate IsBlank(s: string) {
    forall i :: 0 <= i < |s| ==> IsWhitespace(s[i])
  }

  /** CharSequence.trim: drop whitespace at both ends. */
  function Trim(s: string): (r: string)
    ensures r != [] ==> !IsWhitespace(r[0]) && !IsWhitespace(r[|r| - 1])
    ensures r == [] <==> IsBlank(s)
    decreases |s|
  {
    if s != [] && IsWhitespace(s[0]) then
      assert forall i :: 0 < i < |s| ==> s[1..][i - 1] == s[i];
      Trim(s[1..])
    else if s != [] && IsWhitespace(s[|s| - 1]) then
      assert forall i :: 0 <= i < |s| - 1 ==> s[..|s| - 1][i] == s[i];
      Trim(s[..|s| - 1])
    else s
  }

  /** `t` sits at offset k of `s` with only whitespace around it. */
  predicate Framed(s: string, k: nat, t: string) {
    k + |t| <= |s| && t == s[k..k + |t|] && IsBlank(s[..k]) && IsBlank(s[k + |t|..])
  }

  /** What trim keeps is a piece of the string with only whitespace before and after it. */
  lemma {:induction false} TrimSlice(s: string) returns (k: nat)
    ensures k + |Trim(s)| <= |s| && Trim(s) == s[k..k + |Trim(s)|]
    ensures IsBlank(s[..k]) && IsBlank(s[k + |Trim(s)|..])
    decreases |s|
  {
    if s != [] && IsWhitespace(s[0]) {
      var j := TrimSlice(s[1..]);
      k := j + 1;
      assert Trim(s) == Trim(s[1..]);
      FramedDropFirst(s, j, Trim(s));
    } else if s != [] && IsWhitespace(s[|s| - 1]) {
      k := TrimSlice(s[..|s| - 1]);
      assert Trim(s) == Trim(s[..|s| - 1]);
      FramedDropLast(s, k, Trim(s));
    } else {
      k := 0;
      assert s[k..k + |s|] == s;
      assert s[..k] == [] && s[k + |s|..] == [];
    }
  }

  /** A piece framed by whitespace in s[1..] is framed in `s` when s[0] is whitespace. */
  lemma FramedDropFirst(s: string, j: nat, t: string)
    requires s != [] && IsWhitespace(s[0]) && Framed(s[1..], j, t)
    ensures Framed(s, j + 1, t)
  {
    var tail, k := s[1..], j + 1;
    assert tail[j..j + |t|] == s[k..k + |t|];
    assert tail[j + |t|..] == s[k + |t|..];
    forall i | 0 <= i < k
      ensures IsWhitespace(s[..k][i])
    {
      if i > 0 {
        assert s[..k][i] == tail[..j][i - 1];
      }
    }
  }

  /** A piece framed by whitespace in s[..|s| - 1] is framed in `s` when its last character is whitespace. */
  lemma FramedDropLast(s: string, k: nat, t: string)
    requires s != [] && IsWhitespace(s[|s| - 1]) && Framed(s[..|s| - 1], k, t)
    ensures Framed(s, k, t)
  {
    var init, e := s[..|s| - 1], k + |t|;
    assert init[k..e] == s[k..e];
    assert init[..k] == s[..k];
    forall i | 0 <= i < |s| - e
      ensures IsWhitespace(s[e..][i])
    {
      if i < |s| - 1 - e {
        assert s[e..][i] == init[e..][i];
      }
    }
  }

  /** A trimmed line is blank exactly when the line was. */
  lemma TrimBlank(s: string)
    ensures IsBlank(Trim(s)) <==> IsBlank(s)
  {
    var r := Trim(s);
    assert r != [] ==> !IsWhitespace(r[0]);
  }

  /** Trimming a string without whitespace at its ends changes nothing. */
  lemma TrimUnchanged(s: string)
    requires s == [] || (!IsWhitespace(s[0]) && !IsWhitespace(s[|s| - 1]))
    ensures Trim(s) == s
  {
  }

  // ---------------------------------------------------------------------------
  // padEnd, chunked, joinToString, split
  // ---------------------------------------------------------------------------

  /** `n` blanks. */
  function Spaces(n: nat): (r: string)
    ensures |r| == n && forall i :: 0 <= i < n ==> r[i] == ' '
  {
    seq(n, _ => ' ')
  }

  /** String.padEnd(n, ' '): pad with blanks on the right up to length `n`, never cut. */
  function PadEnd(s: string, n: nat): (r: string)
    ensures |r| == if |s| < n then n else |s|
    ensures r[..|s|] == s
    ensures forall i :: |s| <= i < |r| ==> r[i] == ' '
  {
    if |s| < n then s + Spaces(n - |s|) else s
  }

  /** The concatenation of a list of strings, joinToString(""). */
  function Concat(parts: seq<string>): string {
    if parts == [] then "" else parts[0] + Concat(parts[1..])
  }

  lemma {:induction false} ConcatAppend(a: seq<string>, b: seq<string>)
    ensures Concat(a + b) == Concat(a) + Concat(b)
  {
    if a == [] {
      assert a + b == b;
    } else {
      assert (a + b)[0] == a[0];
      assert (a + b)[1..] == a[1..] + b;
      ConcatAppend(a[1..], b);
    }
  }

  /**
    CharSequence.chunked(size): consecutive pieces of `size` characters, the last
    one possibly shorter; the empty string gives no pieces.
   */
  function Chunked(s: string, size: nat): (r: seq<string>)
    requires size > 0
    ensures Concat(r) == s
    ensures r == [] <==> s == []
    decreases |s|
  {
    if s == [] then []
    else if |s| <= size then [s]
    else
      var rest := Chunked(s[size..], size);
      assert s == s[..size] + s[size..];
      [s[..size]] + rest
  }

  /** Every chunk is non-empty and at most `size` long, and all but the last are exactly `size` long. */
  lemma {:induction false} ChunkedPieces(s: string, size: nat)
    requires size > 0
    ensures forall i :: 0 <= i < |Chunked(s, size)| ==> 0 < |Chunked(s, size)[i]| <= size
    ensures forall i :: 0 <= i < |Chunked(s, size)| - 1 ==> |Chunked(s, size)[i]| == size
    decreases |s|
  {
    if |s| > size {
      ChunkedPieces(s[size..], size);
      var r, rest := Chunked(s, size), Chunked(s[size..], size);
      assert r == [s[..size]] + rest && rest != [];
      forall i | 0 <= i < |r|
        ensures 0 < |r[i]| <= size && (i < |r| - 1 ==> |r[i]| == size)
      {
        if i > 0 {
          assert r[i] == rest[i - 1];
        }
      }
    }
  }

  /** Iterable.joinToString(sep). */
  function Join(parts: seq<string>, sep: string): string {
    if parts == [] then ""
    else if |parts| == 1 then parts[0]
    else parts[0] + sep + Join(parts[1..], sep)
  }

  /** CharSequence.split(sep) for a one-character delimiter: every piece, empty ones included. */
  function Split(s: string, sep: char): (r: seq<string>)
    ensures |r| >= 1
    ensures forall i :: 0 <= i < |r| ==> sep !in r[i]
    ensures Join(r, [sep]) == s
    decreases |s|
  {
    if s == [] then [""]
    else
      var tail := Split(s[1..], sep);
      if s[0] == sep then
        assert Join([""] + tail, [sep]) == [sep] + Join(tail, [sep]);
        assert s == [sep] + s[1..];
        [""] + tail
      else
        var r := [[s[0]] + tail[0]] + tail[1..];
        assert r[1..] == tail[1..];
        assert Join(r, [sep]) == [s[0]] + Join(tail, [sep]);
        assert s == [s[0]] + s[1..];
        r
  }

  /** Splitting at the first delimiter: the piece before it comes first. */
  lemma {:induction false} SplitFirst(a: string, sep: char, rest: string)
    requires sep !in a
    ensures Split(a + [sep] + rest, sep) == [a] + Split(rest, sep)
    decreases |a|
  {
    if a == [] {
      assert [] + [sep] + rest == [sep] + rest;
      assert ([sep] + rest)[1..] == rest;
    } else {
      var s := a + [sep] + rest;
      assert s[1..] == a[1..] + [sep] + rest;
      SplitFirst(a[1..], sep, rest);
      assert [a[0]] + a[1..] == a;
    }
  }

  /** A string without the delimiter splits into itself. */
  lemma {:induction false} SplitNone(a: string, sep: char)
    requires sep !in a
    ensures Split(a, sep) == [a]
    decreases |a|
  {
    if a != [] {
      SplitNone(a[1..], sep);
      assert [a[0]] + a[1..] == a;
    }
  }

  // ---------------------------------------------------------------------------
  // lowercase
  // ---------------------------------------------------------------------------

  /**
    The lower-case form of one character as String.lowercase() (Locale.ROOT)
    gives it, for the characters whose lower case is an ASCII letter: A-Z
    become a-z and the Kelvin sign (U+212A) becomes k. Every other character
    is kept; in the original its lower case is the character itself or
    contains no ASCII letter, so a comparison with an ASCII word comes out
    the same.
   */
  function LowerChar(c: char): (r: char)
    ensures 'A' <= c <= 'Z' ==> r as int == c as int + 32
    ensures 'a' <= c <= 'z' ==> r == c
    ensures c == '\U{212A}' ==> r == 'k'
    ensures 'a' <= r <= 'z' ==> ('a' <= c <= 'z' || 'A' <= c <= 'Z' || c == '\U{212A}')
  {
    if 'A' <= c <= 'Z' then (c as int + 32) as char
    else if c == '\U{212A}' then 'k'
    else c
  }

  /**
    What one character becomes: capital I with dot above (U+0130) turns into
    two characters, i followed by a combining dot above (U+0307).
   */
  function LowerChars(c: char): string {
    if c == '\U{130}' then "i\U{307}" else [LowerChar(c)]
  }

  /** String.lowercase() in Locale.ROOT. */
  function Lowercase(s: string): string
    decreases |s|
  {
    if s == [] then [] else LowerChars(s[0]) + Lowercase(s[1..])
  }

  /** A word of ASCII lower-case letters, such as a command or a field name. */
  predicate IsLowerWord(w: string) {
    forall i :: 0 <= i < |w| ==> 'a' <= w[i] <= 'z'
  }

  /** c is the letter l in either case (for k, also the Kelvin sign). */
  predicate CaseMatch(c: char, l: char) {
    c == l || c as int == l as int - 32 || (l == 'k' && c == '\U{212A}')
  }

  /** A string lower-cases to a lower-case word exactly when it spells that word in any mix of cases. */
  lemma {:induction false} LowercaseWord(s: string, w: string)
    requires IsLowerWord(w)
    ensures Lowercase(s) == w <==> |s| == |w| && forall i :: 0 <= i < |s| ==> CaseMatch(s[i], w[i])
    decreases |s|
  {
    if s != [] {
      assert Lowercase(s) == LowerChars(s[0]) + Lowercase(s[1..]);
      if w == [] {
        assert |Lowercase(s)| > 0;
      } else if s[0] == '\U{130}' {
        assert !CaseMatch(s[0], w[0]);
        assert Lowercase(s)[1] == '\U{307}';
      } else {
        assert IsLowerWord(w[1..]) by {
          forall i | 0 <= i < |w| - 1 ensures 'a' <= w[1..][i] <= 'z' {
            assert w[1..][i] == w[i + 1];
          }
        }
        LowercaseWord(s[1..], w[1..]);
        assert LowerChar(s[0]) == w[0] <==> CaseMatch(s[0], w[0]);
        if |s| == |w| && forall i :: 0 <= i < |s| ==> CaseMatch(s[i], w[i]) {
          forall i | 0 <= i < |s| - 1 ensures CaseMatch(s[1..][i], w[1..][i]) {
            assert s[1..][i] == s[i + 1] && w[1..][i] == w[i + 1];
          }
          assert Lowercase(s) == [w[0]] + w[1..] == w;
        }
        if Lowercase(s) == w {
          assert w == [w[0]] + w[1..];
          assert Lowercase(s[1..]) == w[1..];
          forall i | 0 <= i < |s| ensures CaseMatch(s[i], w[i]) {
            if i > 0 {
              assert s[1..][i - 1] == s[i] && w[1..][i - 1] == w[i];
            }
          }
        }
      }
    }
  }

  /** Lower-casing leaves a lower-case word as it is. */
  lemma LowercaseOfWord(w: string)
    requires IsLowerWord(w)
    ensures Lowercase(w) == w
  {
    LowercaseWord(w, w);
  }

  // ---------------------------------------------------------------------------
  // Decimal numerals: String.toInt and Int.toString
  // ---------------------------------------------------------------------------

  const MinInt: int := -0x8000_0000
  const MaxInt: int := 0x7fff_ffff

  predicate IsDigit(c: char) { '0' <= c <= '9' }

  predicate IsDigits(s: string) {
    forall i :: 0 <= i < |s| ==> IsDigit(s[i])
  }

  function DigitChar(d: nat): (c: char)
    requires d < 10
    ensures IsDigit(c)
  {
    ('0' as int + d) as char
  }

  function Pow10(k: nat): (p: nat)
    ensures p >= 1
  {
    if k == 0 then 1 else 10 * Pow10(k - 1)
  }

  /** The value of a string of decimal digits, most significant first. */
  function DigitsValue(s: string): (v: nat)
    requires IsDigits(s)
    ensures v < Pow10(|s|)
  {
    if s == [] then 0
    else DigitsValue(s[..|s| - 1]) * 10 + (s[|s| - 1] as int - '0' as int)
  }

  /**
    String.toInt (Integer.parseInt): an optional sign followed by at least one
    digit, with a value inside the 32-bit range; anything else is rejected.
   */
  function ParseInt(s: string): (r: Option<int>)
    ensures r.Some? ==> MinInt <= r.value <= MaxInt
  {
    if s == [] then None
    else if s[0] == '-' || s[0] == '+' then
      var digits := s[1..];
      if digits == [] || !IsDigits(digits) then None
      else
        var v: int := if s[0] == '-' then 0 - DigitsValue(digits) as int else DigitsValue(digits);
        if MinInt <= v <= MaxInt then Some(v) else None
    else if IsDigits(s) && DigitsValue(s) <= MaxInt then Some(DigitsValue(s))
    else None
  }

  /** toInt accepts an optional sign and a run of digits, leading zeros included, and keeps the value when it fits. */
  lemma ParseIntSigned(sign: string, digits: string)
    requires sign == "" || sign == "+" || sign == "-"
    requires digits != [] && IsDigits(digits)
    ensures var v := if sign == "-" then 0 - DigitsValue(digits) else DigitsValue(digits);
      ParseInt(sign + digits) == if MinInt <= v <= MaxInt then Some(v) else None
  {
    if sign == "" {
      assert sign + digits == digits;
    } else {
      assert (sign + digits)[0] == sign[0] && (sign + digits)[1..] == digits;
    }
  }

  /** Anything but an optional sign followed by at least one digit is rejected. */
  lemma ParseIntShape(s: string)
    ensures ParseInt(s).Some? ==>
      s != [] && (IsDigits(s) || (|s| >= 2 && (s[0] == '+' || s[0] == '-') && IsDigits(s[1..])))
  {
  }

  /** Int.toString for a non-negative number. */
  function NatToString(n: nat): (r: string)
    ensures r != [] && IsDigits(r)
  {
    if n < 10 then [DigitChar(n)] else NatToString(n / 10) + [DigitChar(n % 10)]
  }

  /** Reading back a printed number gives the number. */
  lemma {:induction false} NatToStringValue(n: nat)
    ensures DigitsValue(NatToString(n)) == n
  {
    if n >= 10 {
      NatToStringValue(n / 10);
      var s := NatToString(n);
      assert s[..|s| - 1] == NatToString(n / 10);
    }
  }

  /** String.toInt accepts every printed non-negative Int and returns it. */
  lemma ParseIntNatToString(n: nat)
    requires n <= MaxInt
    ensures ParseInt(NatToString(n)) == Some(n)
  {
    NatToStringValue(n);
  }

  /** String.toInt on a short digit string is its decimal value. */
  lemma ParseIntDigits(s: string)
    requires s != [] && IsDigits(s) && |s| <= 9
    ensures ParseInt(s) == Some(DigitsValue(s))
  {
    var k := |s|;
    assert Pow10(k) <= Pow10(9) by { Pow10Mono(k, 9); }
    assert s[0] != '-' && s[0] != '+';
  }

  lemma {:induction false} Pow10Mono(j: nat, k: nat)
    requires j <= k
    ensures Pow10(j) <= Pow10(k)
    decreases k
  {
    if j < k { Pow10Mono(j, k - 1); }
  }

  // ---------------------------------------------------------------------------
  // ANSI colour blocks
  // ---------------------------------------------------------------------------

  /** A blank character on the ANSI background colour `code`, then a reset: "ESC[<code>m ESC[0m". */
  function ColorBlock(code: string): string {
    "\U{1B}[" + code + "m \U{1B}[0m"
  }

  const Red := "101"
  const Green := "102"
  const Yellow := "103"
  const Blue := "104"

  /** Colour blocks of equally long codes are equal only when the codes are. */
  lemma ColorBlockInjective(a: string, b: string)
    requires |a| == |b| && ColorBlock(a) == ColorBlock(b)
    ensures a == b
  {
    assert ColorBlock(a)[2..2 + |a|] == a;
    assert ColorBlock(b)[2..2 + |b|] == b;
  }
}
