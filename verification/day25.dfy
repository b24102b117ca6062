/** Day 25: balanced base-5 ("SNAFU") numbers. A SNAFU number holds its digit
    characters least-significant first; '2', '1', '0', '-', '=' stand for
    2, 1, 0, -1, -2. */
module Day25Snafu {
  import opened Text

  datatype Snafu = Snafu(digits: seq<char>)

  predicate IsSnafuDigit(c: char) {
    c == '2' || c == '1' || c == '0' || c == '-' || c == '='
  }

  predicate ValidDigits(s: seq<char>) {
    forall i | 0 <= i < |s| :: IsSnafuDigit(s[i])
  }

  /** `SNAFU::digit_value`; any other character panics, so callers must pass
      a SNAFU digit. */
  function DigitValue(c: char): (v: int)
    requires IsSnafuDigit(c)
    ensures -2 <= v <= 2
    ensures (v == 0) == (c == '0')
  {
    match c
    case '0' => 0
    case '1' => 1
    case '2' => 2
    case '-' => -1
    case '=' => -2
  }

  /** The digit `try_from` emits for a remainder of division by 5. */
  function DigitFor(rem: int): (c: char)
    requires 0 <= rem < 5
    ensures IsSnafuDigit(c)
  {
    if rem == 0 then '0'
    else if rem == 1 then '1'
    else if rem == 2 then '2'
    else if rem == 3 then '='
    else '-'
  }

  /** The digit chosen for a remainder has that remainder modulo 5, so
      subtracting its value leaves a multiple of 5. */
  lemma DigitForValue(rem: int)
    requires 0 <= rem < 5
    ensures (rem - DigitValue(DigitFor(rem))) % 5 == 0
    ensures (DigitFor(rem) == '0') == (rem == 0)
  {
  }

  lemma DigitValueInjective(c: char, d: char)
    requires IsSnafuDigit(c) && IsSnafuDigit(d)
    ensures DigitValue(c) == DigitValue(d) ==> c == d
  {
  }

  function Pow5(n: nat): (p: nat)
    ensures p >= 1
  {
    if n == 0 then 1 else 5 * Pow5(n - 1)
  }

  /** The number denoted by least-significant-first digits: the sum of
      digit_value(d_i) * 5^i. */
  function Value(d: seq<char>): int
    requires ValidDigits(d)
  {
    if d == [] then 0
    else Value(d[..|d| - 1]) + DigitValue(d[|d| - 1]) * Pow5(|d| - 1)
  }

  /** Decomposition from the least significant end:
      value(c : rest) = digit_value(c) + 5 * value(rest). */
  lemma {:induction false} ValueCons(c: char, d: seq<char>)
    requires IsSnafuDigit(c) && ValidDigits(d)
    ensures ValidDigits([c] + d)
    ensures Value([c] + d) == DigitValue(c) + 5 * Value(d)
    decreases |d|
  {
    var cd := [c] + d;
    if d != [] {
      var init := d[..|d| - 1];
      assert cd[..|cd| - 1] == [c] + init;
      ValueCons(c, init);
      assert Pow5(|cd| - 1) == 5 * Pow5(|d| - 1);
      calc {
        Value(cd);
        Value([c] + init) + DigitValue(d[|d| - 1]) * Pow5(|cd| - 1);
        DigitValue(c) + 5 * Value(init) + DigitValue(d[|d| - 1]) * (5 * Pow5(|d| - 1));
        DigitValue(c) + 5 * (Value(init) + DigitValue(d[|d| - 1]) * Pow5(|d| - 1));
      }
    } else {
      assert cd[..0] == [];
    }
  }

  /** A k-digit SNAFU number lies within +-(5^k - 1) / 2. */
  lemma {:induction false} ValueBound(d: seq<char>)
    requires ValidDigits(d)
    ensures 2 * Abs(Value(d)) <= Pow5(|d|) - 1
  {
    if d != [] {
      ValueBound(d[..|d| - 1]);
      var p := Pow5(|d| - 1);
      var v := DigitValue(d[|d| - 1]);
      assert -2 * p <= v * p <= 2 * p;
    }
  }

  /** No superfluous '0' in the most significant place. */
  predicate NoLeadingZero(d: seq<char>) {
    d == [] || d[|d| - 1] != '0'
  }

  /** A number whose most significant digit is not '0' is not zero. */
  lemma {:induction false} LeadingDigitDecidesZero(d: seq<char>)
    requires ValidDigits(d) && NoLeadingZero(d)
    ensures (Value(d) == 0) == (d == [])
  {
    if d != [] {
      var init := d[..|d| - 1];
      ValueBound(init);
      var p: int := Pow5(|d| - 1);
      var v := DigitValue(d[|d| - 1]);
      assert v >= 1 ==> v * p >= p;
      assert v <= -1 ==> v * p <= -p;
    }
  }

  /** Balanced base 5 is a unique representation: two digit strings without a
      leading '0' that denote the same number are equal. */
  lemma {:induction false} RepresentationUnique(d1: seq<char>, d2: seq<char>)
    requires ValidDigits(d1) && ValidDigits(d2)
    requires NoLeadingZero(d1) && NoLeadingZero(d2)
    requires Value(d1) == Value(d2)
    ensures d1 == d2
    decreases |d1|
  {
    if d1 == [] || d2 == [] {
      LeadingDigitDecidesZero(d1);
      LeadingDigitDecidesZero(d2);
    } else {
      assert d1 == [d1[0]] + d1[1..];
      assert d2 == [d2[0]] + d2[1..];
      ValueCons(d1[0], d1[1..]);
      ValueCons(d2[0], d2[1..]);
      var a, b := DigitValue(d1[0]), DigitValue(d2[0]);
      assert (a - b) % 5 == 0 by {
        assert a - b == 5 * (Value(d2[1..]) - Value(d1[1..]));
      }
      assert a == b;
      DigitValueInjective(d1[0], d2[0]);
      RepresentationUnique(d1[1..], d2[1..]);
    }
  }

  /** Appending a most significant digit adds its weighted value. */
  lemma AppendDigit(d: seq<char>, c: char)
    requires ValidDigits(d) && IsSnafuDigit(c)
    ensures ValidDigits(d + [c])
    ensures Value(d + [c]) == Value(d) + DigitValue(c) * Pow5(|d|)
  {
    assert (d + [c])[..|d|] == d;
  }

  /** One step of `try_from`: `acc` at weight 5^n equals the emitted digit at
      weight 5^n plus the rest of `acc` at weight 5^(n+1). */
  lemma ShiftDigit(acc: int, next: int, dv: int, n: nat)
    requires (acc - dv) % 5 == 0 && next == (acc - dv) / 5
    ensures acc * Pow5(n) == next * Pow5(n + 1) + dv * Pow5(n)
  {
    assert acc == 5 * next + dv;
    assert Pow5(n + 1) == 5 * Pow5(n);
  }

  /** `SNAFU::to_int`: the loop summing digit_value(d_i) * 5^i. */
  method ToInt(s: Snafu) returns (total: int)
    requires ValidDigits(s.digits)
    ensures total == Value(s.digits)
  {
    var d := s.digits;
    total := 0;
    var i := 0;
    while i < |d|
      invariant 0 <= i <= |d|
      invariant total == Value(d[..i])
    {
      assert d[..i + 1][..i] == d[..i];
      total := total + DigitValue(d[i]) * Pow5(i);
      i := i + 1;
    }
    assert d[..|d|] == d;
  }

  /** `TryFrom<i128>`: repeatedly take the digit for the remainder modulo 5,
      subtract its value and divide by 5, until nothing is left. A negative
      value would reach the `unreachable!` arm, so it is excluded. */
  method FromInt(value: int) returns (s: Snafu)
    requires value >= 0
    ensures ValidDigits(s.digits)
    ensures Value(s.digits) == value
    ensures value == 0 ==> s.digits == ['0']
    ensures value > 0 ==> s.digits != [] && NoLeadingZero(s.digits)
  {
    var acc := value;
    var digits: seq<char> := [];
    while true
      invariant acc >= 0 && ValidDigits(digits)
      invariant value == Value(digits) + acc * Pow5(|digits|)
      invariant digits == [] ==> acc == value
      invariant digits != [] ==> acc > 0
      decreases acc
    {
      var rem := acc % 5;
      var c := DigitFor(rem);
      DigitForValue(rem);
      var next := (acc - DigitValue(c)) / 5;
      AppendDigit(digits, c);
      ShiftDigit(acc, next, DigitValue(c), |digits|);
      ghost var old_acc := acc;
      digits := digits + [c];
      acc := next;
      if acc == 0 {
        assert old_acc > 0 ==> c != '0';
        break;
      }
    }
    s := Snafu(digits);
  }

  /** `FromStr`: the trimmed text read from its last character to its first;
      any character that is not a SNAFU digit makes it fail. */
  method Parse(text: string) returns (r: Option<Snafu>)
    ensures r.Some? <==> ValidDigits(Trim(text))
    ensures r.Some? ==> r.value.digits == Reverse(Trim(text))
  {
    var t := Trim(text);
    var digits: seq<char> := [];
    var k := |t|;
    while k > 0
      invariant 0 <= k <= |t|
      invariant digits == Reverse(t[k..])
      invariant forall i | k <= i < |t| :: IsSnafuDigit(t[i])
    {
      var c := t[k - 1];
      if !IsSnafuDigit(c) {
        return None;
      }
      digits := digits + [c];
      k := k - 1;
    }
    assert t[0..] == t;
    r := Some(Snafu(digits));
  }

  /** `Display`: the digits written most significant first. */
  method Format(s: Snafu) returns (out: string)
    ensures out == Reverse(s.digits)
  {
    out := [];
    var k := |s.digits|;
    while k > 0
      invariant 0 <= k <= |s.digits|
      invariant out == Reverse(s.digits[k..])
    {
      out := out + [s.digits[k - 1]];
      k := k - 1;
    }
    assert s.digits[0..] == s.digits;
  }

  /** Formatting what was parsed gives back the trimmed text: the two
      reversals cancel. */
  lemma FormatOfParse(text: string, parsed: Snafu)
    requires parsed.digits == Reverse(Trim(text))
    ensures Reverse(parsed.digits) == Trim(text)
  {
    ReverseReverse(Trim(text));
  }

  /** The encoding of a value is fixed by the value: whatever `FromInt`
      returns for `value` (valid digits of that value, no leading '0'),
      formats to the written text when the text denotes `value`. */
  lemma {:induction false} EncodingDeterminedByValue(text: string, digits: seq<char>)
    requires text != [] && text[0] != '0' && ValidDigits(text)
    requires ValidDigits(digits) && NoLeadingZero(digits)
    requires Value(digits) == Value(Reverse(text))
    ensures Reverse(digits) == text
  {
    var d := Reverse(text);
    assert ValidDigits(d);
    assert NoLeadingZero(d);
    RepresentationUnique(digits, d);
    ReverseReverse(text);
  }

  /** Rows of the conversion table: each text denotes its number. The
      values are built up by `ValueHead`, one digit at a time from the
      least significant end. */
  lemma ConversionTable3()
    ensures Value(Reverse("1=")) == 3
  {
    assert Reverse("1=") == "=1";
    ValueHead("=1");
    ValueHead("=1"[1..]);
  }

  lemma ConversionTable8()
    ensures Value(Reverse("2=")) == 8
  {
    assert Reverse("2=") == "=2";
    ValueHead("=2");
    ValueHead("=2"[1..]);
  }

  lemma ConversionTable15()
    ensures Value(Reverse("1=0")) == 15
  {
    var t := "0=1";
    assert Reverse("1=0") == t;
    ValueHead(t);
    ValueHead(t[1..]);
    ValueHead(t[1..][1..]);
  }

  lemma ConversionTable2022()
    ensures Value(Reverse("1=11-2")) == 2022
  {
    var t0 := "2-11=1";
    assert Reverse("1=11-2") == t0;
    ValueHead(t0);
    var t1 := t0[1..];
    ValueHead(t1);
    var t2 := t1[1..];
    ValueHead(t2);
    var t3 := t2[1..];
    ValueHead(t3);
    var t4 := t3[1..];
    ValueHead(t4);
    ValueHead(t4[1..]);
  }

  lemma ConversionTable12345()
    ensures Value(Reverse("1-0---0")) == 12345
  {
    var t0 := "0---0-1";
    assert Reverse("1-0---0") == t0;
    ValueHead(t0);
    var t1 := t0[1..];
    ValueHead(t1);
    var t2 := t1[1..];
    ValueHead(t2);
    var t3 := t2[1..];
    ValueHead(t3);
    var t4 := t3[1..];
    ValueHead(t4);
    var t5 := t4[1..];
    ValueHead(t5);
    ValueHead(t5[1..]);
  }

  /** Every line is a SNAFU number once trimmed. */
  predicate AllSnafu(lines: seq<string>) {
    forall k | 0 <= k < |lines| :: ValidDigits(Trim(lines[k]))
  }

  /** The number a line denotes, its text written most significant first. */
  function LineValue(line: string): int
    requires ValidDigits(Trim(line))
  {
    Value(Reverse(Trim(line)))
  }

  /** The sum of the numbers the lines denote. */
  function Total(lines: seq<string>): int
    requires AllSnafu(lines)
  {
    if lines == [] then 0 else Total(lines[..|lines| - 1]) + LineValue(lines[|lines| - 1])
  }

  lemma SnafuStep(lines: seq<string>, k: nat)
    requires k < |lines| && AllSnafu(lines[..k]) && ValidDigits(Trim(lines[k]))
    ensures AllSnafu(lines[..k + 1])
    ensures Total(lines[..k + 1]) == Total(lines[..k]) + LineValue(lines[k])
  {
    var front := lines[..k + 1];
    assert front[..|front| - 1] == lines[..k] && front[|front| - 1] == lines[k];
    forall j | 0 <= j < k + 1 ensures ValidDigits(Trim(front[j])) {
      if j < k {
        assert front[j] == lines[..k][j];
      }
    }
  }

  /** `run`: each line parsed and converted with `to_int`, the values
      summed, and the sum converted back with `try_from` and displayed.
      None where the source panics: a line that is not a SNAFU number, or a
      negative sum, which reaches the `unreachable!` arm of `try_from`. */
  method Run(input: string) returns (r: Option<string>)
    ensures r.Some? <==> AllSnafu(Lines(input)) && Total(Lines(input)) >= 0
    ensures r.Some? ==> r.value != [] && ValidDigits(r.value) && Value(Reverse(r.value)) == Total(Lines(input))
    ensures r.Some? && Total(Lines(input)) > 0 ==> r.value[0] != '0'
  {
    var lines := Lines(input);
    var sum := 0;
    for k := 0 to |lines|
      invariant AllSnafu(lines[..k]) && sum == Total(lines[..k])
    {
      var parsed := Parse(lines[k]);
      if parsed.None? {
        assert !AllSnafu(lines) by {
          assert !ValidDigits(Trim(lines[k]));
        }
        return None;
      }
      var value := ToInt(parsed.value);
      SnafuStep(lines, k);
      sum := sum + value;
    }
    assert lines[..|lines|] == lines;
    if sum < 0 {
      return None;
    }
    var snafu := FromInt(sum);
    var text := Format(snafu);
    ReverseReverse(snafu.digits);
    r := Some(text);
  }

  /** `ValueCons` read off a non-empty digit sequence. */
  lemma ValueHead(d: seq<char>)
    requires ValidDigits(d) && d != []
    ensures ValidDigits(d[1..])
    ensures Value(d) == DigitValue(d[0]) + 5 * Value(d[1..])
  {
    assert [d[0]] + d[1..] == d;
    ValueCons(d[0], d[1..]);
  }
}
