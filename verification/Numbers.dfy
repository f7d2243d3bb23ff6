/** char_to_number and cflare_tointeger of util.c. Powers and sums are computed in doubles:
    `round` stands for that rounding and is only known to keep integers up to 2^53. */
module Numbers {
  const EXACT := 0x20_0000_0000_0000

  datatype Parsed = Number(value: int) | NotANumber | AssertionFails

  ghost predicate IsDouble(round: int -> int) {
    forall x | -EXACT <= x <= EXACT :: round(x) == x
  }

  function CharToNumber(c: char): int {
    if '0' <= c <= '9' then c as int - '0' as int
    else if 'a' <= c <= 'z' then 10 + (c as int - 'a' as int)
    else if 'A' <= c <= 'Z' then 10 + (c as int - 'A' as int)
    else -1
  }

  function Pow(base: nat, e: nat): nat {
    if e == 0 then 1 else base * Pow(base, e - 1)
  }

  predicate AllDigits(s: string, base: nat) {
    forall k | 0 <= k < |s| :: 0 <= CharToNumber(s[k]) < base
  }

  /** The positional value of a digit string, by Horner's rule. */
  function Horner(s: string, base: nat): int {
    if s == [] then 0 else Horner(s[..|s| - 1], base) * base + CharToNumber(s[|s| - 1])
  }

  /** What the digit loop makes of `s`: the leftmost offending character decides. */
  function DigitsOf(s: string, base: nat): Parsed {
    if s == [] then Number(0)
    else
      match DigitsOf(s[..|s| - 1], base)
      case Number(v) =>
        var n := CharToNumber(s[|s| - 1]);
        if n < 0 then AssertionFails else if n >= base then NotANumber else Number(v * base + n)
      case bad => bad
  }

  /** Sign, base mark and digits of a number's text. */
  function Sign(s: string): int {
    if s != [] && s[0] == '-' then -1 else 1
  }

  function Unsigned(s: string): string {
    if s != [] && (s[0] == '-' || s[0] == '+') then s[1..] else s
  }

  function Base(u: string): nat {
    if |u| >= 2 && u[0] == '0' && u[1] == 'x' then 16
    else if |u| >= 2 && u[0] == '0' && u[1] == 'b' then 2
    else 10
  }

  function Digits(u: string): string {
    if Base(u) == 10 then u else u[2..]
  }

  /** The exact meaning of a number's text. */
  function Meaning(s: string): Parsed {
    var u := Unsigned(s);
    if Digits(u) == [] then NotANumber
    else
      match DigitsOf(Digits(u), Base(u))
      case Number(v) => Number(Sign(s) * v)
      case bad => bad
  }

  lemma {:induction false} DigitsAreHorner(s: string, base: nat)
    ensures DigitsOf(s, base).Number? <==> AllDigits(s, base)
    ensures AllDigits(s, base) ==> DigitsOf(s, base) == Number(Horner(s, base)) && Horner(s, base) >= 0
  {
    if s != [] {
      DigitsAreHorner(s[..|s| - 1], base);
      LastDigit(s, s[..|s| - 1], s[|s| - 1], base);
    }
  }

  /** One digit more. */
  lemma LastDigit(s: string, front: string, c: char, base: nat)
    requires s != [] && front == s[..|s| - 1] && c == s[|s| - 1]
    requires DigitsOf(front, base).Number? <==> AllDigits(front, base)
    requires AllDigits(front, base) ==> DigitsOf(front, base) == Number(Horner(front, base)) && Horner(front, base) >= 0
    ensures DigitsOf(s, base).Number? <==> AllDigits(s, base)
    ensures AllDigits(s, base) ==> DigitsOf(s, base) == Number(Horner(s, base)) && Horner(s, base) >= 0
  {
    AllDigitsSnoc(s, front, c, base);
    assert DigitsOf(s, base) ==
      match DigitsOf(front, base)
      case Number(v) => (
        var n := CharToNumber(c);
        if n < 0 then AssertionFails else if n >= base then NotANumber else Number(v * base + n)
      )
      case bad => bad;
    assert Horner(s, base) == Horner(front, base) * base + CharToNumber(c);
    if AllDigits(front, base) {
      NonNegative(Horner(front, base), base);
    }
  }

  lemma AllDigitsSnoc(s: string, front: string, c: char, base: nat)
    requires s != [] && front == s[..|s| - 1] && c == s[|s| - 1]
    ensures AllDigits(s, base) <==> AllDigits(front, base) && 0 <= CharToNumber(c) < base
  {
    assert forall k | 0 <= k < |front| :: front[k] == s[k];
  }

  /** Until the offending character the scan gives the value so far; then its verdict stays. */
  lemma {:induction false} DigitsPrefix(s: string, i: nat, base: nat)
    requires i < |s| && AllDigits(s[..i], base) && !(0 <= CharToNumber(s[i]) < base)
    ensures DigitsOf(s, base) == if CharToNumber(s[i]) < 0 then AssertionFails else NotANumber
  {
    DigitsAreHorner(s[..i], base);
    if i == |s| - 1 {
    } else {
      var front := s[..|s| - 1];
      assert front[..i] == s[..i];
      DigitsPrefix(front, i, base);
    }
  }

  /** Value of the first `i` digits, each at its final weight in a string of `len` digits. */
  function Weighted(s: string, base: nat, len: nat): int
    requires |s| <= len
  {
    if s == [] then 0
    else Weighted(s[..|s| - 1], base, len) + Pow(base, len - |s|) * CharToNumber(s[|s| - 1])
  }

  /** Highest power first adds up to Horner's value. */
  lemma {:induction false} WeightedIsHorner(s: string, base: nat, len: nat)
    requires |s| <= len
    ensures Weighted(s, base, len) == Horner(s, base) * Pow(base, len - |s|)
  {
    if s != [] {
      var front, d, p := s[..|s| - 1], CharToNumber(s[|s| - 1]), Pow(base, len - |s|);
      WeightedIsHorner(front, base, len);
      assert Pow(base, len - |front|) == base * p;
      Regroup(Horner(front, base), base, p, d);
    }
  }

  lemma Regroup(v: int, base: int, p: int, d: int)
    ensures v * (base * p) + p * d == (v * base + d) * p
  {
    assert v * (base * p) == (v * base) * p;
  }

  lemma {:induction false} PowPositive(base: nat, e: nat)
    requires base > 0
    ensures Pow(base, e) > 0
  {
    if e > 0 {
      PowPositive(base, e - 1);
    }
  }

  /** Partial sums never exceed the whole. */
  lemma {:induction false} WeightedGrows(s: string, i: nat, base: nat)
    requires i <= |s| && AllDigits(s, base) && base > 0
    ensures 0 <= Weighted(s[..i], base, |s|) <= Weighted(s, base, |s|)
    decreases |s| - i
  {
    WeightedIsHorner(s[..i], base, |s|);
    DigitsAreHorner(s[..i], base);
    PowPositive(base, |s| - i);
    if i == |s| {
      assert s[..i] == s;
    } else {
      WeightedGrows(s, i + 1, base);
      assert s[..i + 1][..i] == s[..i];
      PowPositive(base, |s| - i - 1);
    }
  }

  /** The same sum as the loop computes it: every power, product and sum is rounded. */
  function RoundedSum(s: string, base: nat, len: nat, round: int -> int): int
    requires |s| <= len
  {
    if s == [] then 0
    else round(RoundedSum(s[..|s| - 1], base, len, round)
               + round(round(Pow(base, len - |s|)) * CharToNumber(s[|s| - 1])))
  }

  /** What cflare_tointeger returns. */
  function Computed(s: string, round: int -> int): Parsed {
    var u := Unsigned(s);
    if Digits(u) == [] then NotANumber
    else
      match DigitsOf(Digits(u), Base(u))
      case Number(_) => Number(Sign(s) * RoundedSum(Digits(u), Base(u), |Digits(u)|, round))
      case bad => bad
  }

  /** Below 2^53 every turn of the digit loop is exact. */
  lemma {:induction false} RoundedSumIsExact(s: string, i: nat, base: nat, round: int -> int)
    requires i <= |s| && AllDigits(s, base) && base > 0 && IsDouble(round)
    requires Horner(s, base) < EXACT
    ensures RoundedSum(s[..i], base, |s|, round) == Weighted(s[..i], base, |s|)
  {
    if i > 0 {
      var n, p := CharToNumber(s[i - 1]), Pow(base, |s| - i);
      var before, after := Weighted(s[..i - 1], base, |s|), Weighted(s[..i], base, |s|);
      RoundedSumIsExact(s, i - 1, base, round);
      assert s[..i][..i - 1] == s[..i - 1];
      assert after == before + p * n;
      PowPositive(base, |s| - i);
      NonNegative(p, n);
      SumsAreSmall(s, i, base);
      ProductIsExact(p, n, round);
    }
  }

  lemma SumsAreSmall(s: string, i: nat, base: nat)
    requires 0 < i <= |s| && AllDigits(s, base) && base > 0 && Horner(s, base) < EXACT
    ensures 0 <= Weighted(s[..i - 1], base, |s|) && Weighted(s[..i], base, |s|) < EXACT
  {
    WeightedIsHorner(s, base, |s|);
    WeightedGrows(s, i - 1, base);
    WeightedGrows(s, i, base);
  }

  lemma NonNegative(p: int, n: int)
    requires p >= 0 && n >= 0
    ensures p * n >= 0
  {
  }

  lemma ProductIsExact(p: int, n: int, round: int -> int)
    requires IsDouble(round) && p > 0 && n >= 0 && p * n < EXACT
    ensures round(round(p) * n) == p * n
  {
    if n > 0 {
      assert p <= p * n;
    }
    assert p * n >= 0;
  }

  /** Which texts are numbers never depends on rounding, and a value below 2^53 in
      magnitude is exact. */
  lemma ComputedIsExact(s: string, round: int -> int)
    requires IsDouble(round)
    ensures Computed(s, round).Number? <==> Meaning(s).Number?
    ensures !Meaning(s).Number? ==> Computed(s, round) == Meaning(s)
    ensures Meaning(s).Number? && -EXACT < Meaning(s).value < EXACT ==> Computed(s, round) == Meaning(s)
  {
    var u := Unsigned(s);
    var d, base := Digits(u), Base(u);
    DigitsAreHorner(d, base);
    if Meaning(s).Number? && -EXACT < Meaning(s).value < EXACT {
      assert Horner(d, base) < EXACT;
      RoundedSumIsExact(d, |d|, base, round);
      WeightedIsHorner(d, base, |d|);
      assert d[..|d|] == d;
    }
  }

  /** The digit loop. */
  method SumDigits(p: string, base: nat, round: int -> int) returns (r: Parsed)
    ensures r == match DigitsOf(p, base)
      case Number(_) => Number(RoundedSum(p, base, |p|, round))
      case bad => bad
  {
    var ret := 0;
    for i := 0 to |p|
      invariant AllDigits(p[..i], base)
      invariant ret == RoundedSum(p[..i], base, |p|, round)
    {
      var n := CharToNumber(p[i]);
      if n < 0 {
        DigitsPrefix(p, i, base);
        return AssertionFails;
      }
      if n >= base {
        DigitsPrefix(p, i, base);
        return NotANumber;
      }
      assert p[..i + 1][..i] == p[..i];
      ret := round(ret + round(round(Pow(base, |p| - i - 1)) * n));
    }
    assert p[..|p|] == p;
    DigitsAreHorner(p, base);
    return Number(ret);
  }

  method ToInteger(s: string, round: int -> int) returns (r: Parsed)
    ensures r == Computed(s, round)
  {
    var sign, base, p := 1, 10, s;
    if |s| == 0 {
      return NotANumber;
    }
    if p[0] == '-' || p[0] == '+' {
      sign := if p[0] == '+' then 1 else -1;
      p := p[1..];
    }
    ghost var u := p;
    if |p| >= 2 && p[0] == '0' {
      if p[1] == 'x' {
        p, base := p[2..], 16;
      } else if p[1] == 'b' {
        p, base := p[2..], 2;
      }
    }
    assert u == Unsigned(s) && p == Digits(u) && base == Base(u) && sign == Sign(s);
    if |p| == 0 {
      return NotANumber;
    }
    r := SumDigits(p, base, round);
    if r.Number? {
      r := Number(sign * r.value);
    }
  }

  // What the digits are.

  const DIGITS := "0123456789abcdef"
  const UPPER_DIGITS := "0123456789ABCDEF"

  lemma DigitValues(d: nat)
    requires d < 16
    ensures CharToNumber(DIGITS[d]) == CharToNumber(UPPER_DIGITS[d]) == d
  {
    if d < 10 {
      DecimalValues(d);
    } else {
      LetterValues(d);
    }
  }

  lemma DecimalValues(d: nat)
    requires d < 10
    ensures DIGITS[d] == UPPER_DIGITS[d] && CharToNumber(DIGITS[d]) == d
  {
    match d
    case 0 => case 1 => case 2 => case 3 => case 4 => case 5 => case 6 => case 7 => case 8 => case _ =>
  }

  lemma LetterValues(d: nat)
    requires 10 <= d < 16
    ensures CharToNumber(DIGITS[d]) == CharToNumber(UPPER_DIGITS[d]) == d
  {
    match d
    case 10 => case 11 => case 12 => case 13 => case 14 => case _ =>
  }

  /** No other character is a hexadecimal digit, and what is no letter and no digit is none at all. */
  lemma NoOtherDigits(c: char)
    ensures 0 <= CharToNumber(c) < 16 <==> c in DIGITS || c in UPPER_DIGITS
    ensures CharToNumber(c) < 0 <==> !('0' <= c <= '9' || 'a' <= c <= 'z' || 'A' <= c <= 'Z')
  {
    var d := CharToNumber(c);
    if 0 <= d < 16 {
      DigitValues(d);
      assert c == DIGITS[d] || c == UPPER_DIGITS[d];
    }
    if c in DIGITS {
      var k :| 0 <= k < |DIGITS| && DIGITS[k] == c;
      DigitValues(k);
    } else if c in UPPER_DIGITS {
      var k :| 0 <= k < |UPPER_DIGITS| && UPPER_DIGITS[k] == c;
      DigitValues(k);
    }
  }

  // Printers, and the way back.

  function InBase(n: nat, base: nat, upper: bool): (s: string)
    requires 2 <= base <= 16
    ensures s != []
  {
    var d := if upper then UPPER_DIGITS[n % base] else DIGITS[n % base];
    if n < base then [d] else InBase(n / base, base, upper) + [d]
  }

  lemma HornerSnoc(front: string, c: char, base: nat)
    ensures Horner(front + [c], base) == Horner(front, base) * base + CharToNumber(c)
    ensures AllDigits(front, base) && 0 <= CharToNumber(c) < base ==> AllDigits(front + [c], base)
  {
    assert (front + [c])[..|front|] == front;
  }

  lemma Divided(n: nat, base: nat) returns (q: nat, d: nat)
    requires 2 <= base
    ensures q == n / base && d == n % base < base && q * base + d == n && (n >= base ==> q < n) && (n < base ==> d == n)
  {
    q, d := n / base, n % base;
    if n >= base {
      TwiceIsMore(q, base);
    }
  }

  lemma TwiceIsMore(q: nat, base: nat)
    requires base >= 2
    ensures q > 0 ==> q * base > q
  {
  }

  lemma {:induction false} InBaseDigits(n: nat, base: nat, upper: bool)
    requires 2 <= base <= 16
    ensures AllDigits(InBase(n, base, upper), base) && Horner(InBase(n, base, upper), base) == n
  {
    var q, d := Divided(n, base);
    DigitValues(d);
    var c := if upper then UPPER_DIGITS[d] else DIGITS[d];
    if n >= base {
      InBaseDigits(q, base, upper);
      HornerSnoc(InBase(q, base, upper), c, base);
    } else {
      OneDigit(c, base);
    }
  }

  lemma OneDigit(c: char, base: nat)
    ensures Horner([c], base) == CharToNumber(c)
    ensures 0 <= CharToNumber(c) < base ==> AllDigits([c], base)
  {
    HornerSnoc([], c, base);
    assert [] + [c] == [c] && Horner([], base) == 0;
  }

  /** A number with the mark of its base. */
  function Marked(n: nat, base: nat, upper: bool): string
    requires base == 16 || base == 2
  {
    (if base == 16 then "0x" else "0b") + InBase(n, base, upper)
  }

  /** Behind the mark of its base, and with any sign, a text of digits is read as its value. */
  lemma MarkIsRead(mark: string, digits: string, base: nat)
    requires (mark == "0x" && base == 16) || (mark == "0b" && base == 2)
    requires AllDigits(digits, base) && digits != []
    ensures var u, v := mark + digits, Horner(digits, base);
      Meaning(u) == Meaning("+" + u) == Number(v) && Meaning("-" + u) == Number(0 - v)
  {
    MarkIsSeen(mark, digits, base);
    assert (mark + digits)[0] == '0';
    SignsAreSeen(mark + digits);
  }

  lemma MarkIsSeen(mark: string, digits: string, base: nat)
    requires (mark == "0x" && base == 16) || (mark == "0b" && base == 2)
    requires AllDigits(digits, base) && digits != []
    ensures Meaning(mark + digits) == Number(Horner(digits, base))
  {
    DigitsAreHorner(digits, base);
    assert (mark + digits)[2..] == digits;
  }

  /** A sign is taken off once. */
  lemma SignsAreSeen(u: string)
    requires u != [] && u[0] != '+' && u[0] != '-'
    ensures Meaning("+" + u) == Meaning(u)
    ensures Meaning(u).Number? ==> Meaning("-" + u) == Number(0 - Meaning(u).value)
  {
    assert ("+" + u)[1..] == ("-" + u)[1..] == u;
  }

  /** So does the program, for every number that a double holds exactly. */
  lemma MarkedIsComputed(n: nat, base: nat, upper: bool, sign: string, round: int -> int)
    requires (base == 16 || base == 2) && n < EXACT && IsDouble(round)
    requires sign == "" || sign == "+" || sign == "-"
    ensures Computed(sign + Marked(n, base, upper), round) == Number(if sign == "-" then 0 - n else n)
  {
    InBaseDigits(n, base, upper);
    MarkIsComputed(sign, if base == 16 then "0x" else "0b", InBase(n, base, upper), base, round);
  }

  lemma MarkIsComputed(sign: string, mark: string, digits: string, base: nat, round: int -> int)
    requires (mark == "0x" && base == 16) || (mark == "0b" && base == 2)
    requires AllDigits(digits, base) && digits != [] && Horner(digits, base) < EXACT && IsDouble(round)
    requires sign == "" || sign == "+" || sign == "-"
    ensures var v := Horner(digits, base);
      Computed(sign + (mark + digits), round) == Number(if sign == "-" then 0 - v else v)
  {
    MarkIsRead(mark, digits, base);
    DigitsAreHorner(digits, base);
    assert sign == "" ==> sign + (mark + digits) == mark + digits;
    ComputedIsExact(sign + (mark + digits), round);
  }

  function Decimal(n: nat): (s: string)
    ensures s != []
  {
    InBase(n, 10, false)
  }

  /** Printing a number in decimal and reading it gives it back. */
  lemma DecimalRoundTrip(n: nat)
    ensures Meaning(Decimal(n)) == Meaning(['+'] + Decimal(n)) == Number(n)
    ensures Meaning(['-'] + Decimal(n)) == Number(0 - n)
  {
    var s := Decimal(n);
    InBaseDigits(n, 10, false);
    PlainDigits(s);
    assert (['-'] + s)[1..] == (['+'] + s)[1..] == s;
  }

  /** So does the program, for every number that a double holds exactly. */
  lemma DecimalIsComputed(n: nat, round: int -> int)
    requires n < EXACT && IsDouble(round)
    ensures Computed(Decimal(n), round) == Computed(['+'] + Decimal(n), round) == Number(n)
    ensures Computed(['-'] + Decimal(n), round) == Number(0 - n)
  {
    DecimalRoundTrip(n);
    ComputedIsExact(Decimal(n), round);
    ComputedIsExact(['+'] + Decimal(n), round);
    ComputedIsExact(['-'] + Decimal(n), round);
  }

  /** Decimal digits are neither a sign nor a base mark. */
  lemma PlainDigits(s: string)
    requires AllDigits(s, 10) && s != []
    ensures Unsigned(s) == s && Base(s) == 10 && Sign(s) == 1
    ensures DigitsOf(s, 10) == Number(Horner(s, 10))
  {
    DigitsAreHorner(s, 10);
    assert 0 <= CharToNumber(s[0]) < 10;
    assert |s| >= 2 ==> 0 <= CharToNumber(s[1]) < 10;
  }

  /** The leftmost character that is no digit of the base decides: a letter or digit makes the text
      no number, any other character fails the assertion. */
  lemma BadDigitDecides(s: string, i: nat)
    requires i < |s| && forall k | 0 <= k < i :: '0' <= s[k] <= '9'
    requires i > 0 && !('0' <= s[i] <= '9') && !(i == 1 && s[0] == '0' && (s[1] == 'x' || s[1] == 'b'))
    ensures Meaning(s) == if 'a' <= s[i] <= 'z' || 'A' <= s[i] <= 'Z' then NotANumber else AssertionFails
  {
    assert Unsigned(s) == s && Base(s) == 10 by {
      assert '0' <= s[0] <= '9' && (i > 1 ==> '0' <= s[1] <= '9');
    }
    DigitsPrefix(s, i, 10);
  }

  /** Texts that are no numbers. */
  lemma EmptyNumbers()
    ensures Meaning("") == Meaning("-") == Meaning("+") == Meaning("0x") == Meaning("-0b") == NotANumber
  {
    assert "-"[1..] == "+"[1..] == "" && "0x"[2..] == "" && "-0b"[1..] == "0b" && "0b"[2..] == "";
  }
}
