/** url.c: percent decoding in place, and the query parser with its growing buffers. */
module Urls {
  import opened Options
  import opened Text
  import opened Numbers

  // Decoding.

  /** Malformed keeps what had been written when the bad escape was met. */
  datatype Decoding = Decoded(text: string) | Malformed(written: string) | Aborts

  /** The two characters of an escape are read as the number "0x..", up to a NUL. */
  function EscapeValue(a: char, b: char, round: int -> int): Numbers.Parsed {
    Computed(CStr(['0', 'x', a, b]), round)
  }

  /** What stands at one place: a character and how many it takes to write it. */
  datatype Reading = Char(c: char, width: nat) | BadEscape | Fails

  function ReadAt(s: string, i: nat, round: int -> int): (r: Reading)
    requires i < |s|
    ensures r.Char? ==> 0 < r.width && i + r.width <= |s|
  {
    if s[i] == '%' then
      if i + 2 >= |s| then BadEscape
      else
        match EscapeValue(s[i + 1], s[i + 2], round)
        case Number(v) => Char((v % 256) as char, 3)
        case NotANumber => BadEscape
        case AssertionFails => Fails
    else Char(if s[i] == '+' then ' ' else s[i], 1)
  }

  /** Decoding `s` from place `i` on, after `written`. */
  function Unescape(s: string, i: nat, written: string, round: int -> int): Decoding
    decreases |s| - i
  {
    if i >= |s| then Decoded(written)
    else
      match ReadAt(s, i, round)
      case Char(c, width) => Unescape(s, i + width, written + [c], round)
      case BadEscape => Malformed(written)
      case Fails => Aborts
  }

  datatype Mutation = Shortened(len: nat) | Unfinished | Aborted

  /** The switch of the decoding loop; `s` is what was in the buffer at first. */
  method ReadUnit(input: array<char>, i: nat, len: nat, round: int -> int, ghost s: string) returns (r: Reading)
    requires i < len == |s| && len < input.Length && forall j | i <= j < len :: input[j] == s[j]
    ensures r == ReadAt(s, i, round)
  {
    if input[i] == '%' {
      if i + 2 >= len {
        return BadEscape;
      }
      var value := ToInteger(CStr(['0', 'x', input[i + 1], input[i + 2]]), round);
      match value {
        case NotANumber => return BadEscape;
        case AssertionFails => return Fails;
        case Number(v) => return Char((v % 256) as char, 3);
      }
    }
    r := Char(if input[i] == '+' then ' ' else input[i], 1);
  }

  lemma TailKept(b: string, was: string, n: nat, len: nat)
    requires n <= len <= |b| == |was| && forall j | n <= j < |b| :: b[j] == was[j]
    ensures b[..len] == b[..n] + was[n..len]
  {
  }

  lemma UnescapeTurn(s: string, i: nat, written: string, round: int -> int)
    ensures var d := Unescape(s, i, written, round);
      if i >= |s| then d == Decoded(written)
      else match ReadAt(s, i, round)
        case Char(c, width) => d == Unescape(s, i + width, written + [c], round)
        case BadEscape => d == Malformed(written)
        case Fails => d == Aborts
  {
  }

  method WriteChar(input: array<char>, n: nat, c: char)
    requires n < input.Length
    modifies input
    ensures input[..n] == old(input[..n]) && input[n] == c && input[..n + 1] == old(input[..n]) + [c]
    ensures forall j | n < j < input.Length :: input[j] == old(input[j])
  {
    input[n] := c;
  }

  /** cflare_unescape_url_mutate: the write index `n` never passes the read index `i`, so in
      place it decodes what was there. A bad escape leaves the rest as it was. */
  method UnescapeInPlace(input: array<char>, len: nat, round: int -> int) returns (r: Mutation)
    requires len < input.Length
    modifies input
    ensures match Unescape(old(input[..len]), 0, [], round)
      case Decoded(text) => r == Shortened(|text|) && |text| <= len && input[..|text|] == text && input[|text|] == NUL
      case Malformed(written) =>
        && r == Unfinished && |written| <= len
        && input[..][..len] == written + old(input[..])[|written|..len]
      case Aborts => r == Aborted
    ensures forall j | len < j < input.Length :: input[j] == old(input[j])
    ensures r == Unfinished ==> input[len] == old(input[len])
  {
    ghost var s, all := input[..len], input[..];
    ghost var d := Unescape(s, 0, [], round);
    var i, n := 0, 0;
    while i < len
      invariant n <= i <= len
      invariant forall j | n <= j < input.Length :: input[j] == all[j]
      invariant d == Unescape(s, i, input[..n], round)
      decreases len - i
    {
      ghost var written := input[..n];
      UnescapeTurn(s, i, written, round);
      var unit := ReadUnit(input, i, len, round, s);
      match unit {
        case BadEscape =>
          TailKept(input[..], all, n, len);
          return Unfinished;
        case Fails => return Aborted;
        case Char(c, width) =>
          WriteChar(input, n, c);
          i, n := i + width, n + 1;
      }
    }
    ghost var written := input[..n];
    UnescapeTurn(s, i, written, round);
    WriteChar(input, n, NUL);
    r := Shortened(n);
  }

  // The query parser.

  predicate Stops(c: char, isKey: bool) {
    c == '&' || (isKey && c == '=')
  }

  /** Where a key ends, or a value: at its stop, or at the end of the input. */
  function PieceEnd(s: string, i: nat, isKey: bool): (e: nat)
    requires i <= |s|
    ensures i <= e <= |s|
    decreases |s| - i
  {
    if i == |s| || Stops(s[i], isKey) then i else PieceEnd(s, i + 1, isKey)
  }

  function PieceText(s: string, i: nat, isKey: bool): string
    requires i <= |s|
    decreases |s| - i
  {
    if i == |s| || Stops(s[i], isKey) then [] else [s[i]] + PieceText(s, i + 1, isKey)
  }

  datatype Pair = Pair(key: string, value: string)

  /** The pairs the callback gets, and whether the run was cut short by an assertion. */
  datatype Calls = Calls(pairs: seq<Pair>, aborted: bool)

  /** What the callback sees of a raw piece: an unfinished decoding keeps its tail as it was. */
  function Seen(raw: string, round: int -> int): Option<string> {
    match Unescape(raw, 0, [], round)
    case Decoded(text) => Some(text)
    case Malformed(written) => Some(written + if |written| <= |raw| then raw[|written|..] else [])
    case Aborts => None
  }

  datatype Raw = Raw(key: string, value: string)

  /** Where the pair at `i` ends, and its undecoded text. */
  function PairEnd(s: string, i: nat): (f: nat)
    requires i <= |s|
    ensures i <= f <= |s|
  {
    var e := PieceEnd(s, i, true);
    if e < |s| && s[e] == '=' then PieceEnd(s, e + 1, false) else e
  }

  function RawAt(s: string, i: nat): Raw
    requires i <= |s|
  {
    var e := PieceEnd(s, i, true);
    Raw(PieceText(s, i, true), if e < |s| && s[e] == '=' then PieceText(s, e + 1, false) else [])
  }

  /** The undecoded pairs of `s` from place `i` on. */
  function Pieces(s: string, i: nat): seq<Raw>
    decreases |s| - i
  {
    if i >= |s| then [] else [RawAt(s, i)] + Pieces(s, PairEnd(s, i) + 1)
  }

  /** What the callback sees of one; nothing if decoding aborts. */
  function SeenPair(r: Raw, round: int -> int): Option<Pair> {
    var key, value := Seen(r.key, round), Seen(r.value, round);
    if key == None || value == None then None else Some(Pair(key.value, value.value))
  }

  /** The calls for a list of pieces, after those made before. */
  function CallsFor(raws: seq<Raw>, before: seq<Pair>, round: int -> int): Calls
    decreases |raws|
  {
    if raws == [] then Calls(before, false)
    else
      match SeenPair(raws[0], round)
      case None => Calls(before, true)
      case Some(pair) => CallsFor(raws[1..], before + [pair], round)
  }

  lemma PiecesTurn(s: string, i: nat, f: nat, r: Raw, rest: seq<Raw>)
    requires i < |s| && f == PairEnd(s, i) && r == RawAt(s, i) && rest == Pieces(s, f + 1)
    ensures Pieces(s, i) == [r] + rest
  {
  }

  lemma CallsTurn(r: Raw, rest: seq<Raw>, before: seq<Pair>, pair: Option<Pair>, round: int -> int)
    requires pair == SeenPair(r, round)
    ensures CallsFor([r] + rest, before, round)
      == if pair.Some? then CallsFor(rest, before + [pair.value], round) else Calls(before, true)
  {
    assert ([r] + rest)[1..] == rest;
  }

  /** realloc to twice the size: the bytes are kept. */
  method Grow(buffer: array<char>) returns (bigger: array<char>)
    requires buffer.Length > 0
    ensures fresh(bigger) && bigger.Length == 2 * buffer.Length && bigger[..buffer.Length] == buffer[..]
  {
    var n := buffer.Length;
    bigger := new char[2 * n](j requires 0 <= j < 2 * n reads buffer => if j < n then buffer[j] else NUL);
  }

  lemma PieceTurn(s: string, i: nat, isKey: bool, before: string)
    requires i < |s| && !Stops(s[i], isKey)
    ensures PieceEnd(s, i, isKey) == PieceEnd(s, i + 1, isKey)
    ensures before + PieceText(s, i, isKey) == before + [s[i]] + PieceText(s, i + 1, isKey)
  {
  }

  method PutChar(buffer: array<char>, len: nat, c: char)
    requires len < buffer.Length
    modifies buffer
    ensures buffer[..len + 1] == old(buffer[..len]) + [c] && buffer[..len] == old(buffer[..len]) && buffer[len] == c
  {
    buffer[len] := c;
  }

  /** Copies a piece of the input, growing the buffer when it is full, so that there is always
      room for the terminator. */
  method Gather(input: string, from: nat, isKey: bool, buffer0: array<char>)
    returns (i: nat, len: nat, buffer: array<char>)
    requires from <= |input| && buffer0.Length >= 64
    modifies buffer0
    ensures buffer == buffer0 || fresh(buffer)
    ensures i == PieceEnd(input, from, isKey) && len == i - from
    ensures len < buffer.Length && buffer[..len] == PieceText(input, from, isKey) && buffer[len] == NUL
    ensures buffer0.Length <= buffer.Length && (buffer.Length > buffer0.Length ==> buffer.Length <= 2 * len)
  {
    i, len, buffer := from, 0, buffer0;
    ghost var text, got := PieceText(input, from, isKey), [];
    while i < |input| && !Stops(input[i], isKey)
      invariant from <= i <= |input| && len == i - from < buffer.Length
      invariant buffer == buffer0 || fresh(buffer)
      invariant PieceEnd(input, i, isKey) == PieceEnd(input, from, isKey)
      invariant buffer[..len] == got && got + PieceText(input, i, isKey) == text
      invariant buffer0.Length <= buffer.Length && (buffer.Length > buffer0.Length ==> buffer.Length <= 2 * len)
      modifies buffer
      decreases |input| - i
    {
      PieceTurn(input, i, isKey, got);
      PutChar(buffer, len, input[i]);
      got := got + [input[i]];
      len, i := len + 1, i + 1;
      if len == buffer.Length {
        buffer := Grow(buffer);
      }
    }
    PutChar(buffer, len, NUL);
  }

  /** A gathered piece is decoded where it stands. */
  method DecodePiece(buffer: array<char>, len: nat, round: int -> int) returns (seen: Option<string>)
    requires len < buffer.Length && buffer[len] == NUL
    modifies buffer
    ensures seen == Seen(old(buffer[..len]), round)
  {
    ghost var raw, all := buffer[..len], buffer[..];
    var r := UnescapeInPlace(buffer, len, round);
    assert forall k | 0 <= k <= len :: all[k..len] == raw[k..];
    match r {
      case Shortened(n) => seen := Some(buffer[..n]);
      case Unfinished => seen := Some(buffer[..len]);
      case Aborted => seen := None;
    }
  }

  /** One turn of the query loop: a key and its value. */
  method ReadPair(input: string, from: nat, key0: array<char>, val0: array<char>, round: int -> int)
    returns (i: nat, pair: Option<Pair>, key: array<char>, val: array<char>)
    requires from < |input| && key0 != val0 && key0.Length >= 64 && val0.Length >= 64
    modifies key0, val0
    ensures key != val && key.Length >= 64 && val.Length >= 64
    ensures key == key0 || fresh(key)
    ensures val == val0 || fresh(val)
    ensures i == PairEnd(input, from) && pair == SeenPair(RawAt(input, from), round)
  {
    var klen, vlen;
    i, klen, key := Gather(input, from, true, key0);
    if i < |input| && input[i] == '=' {
      i, vlen, val := Gather(input, i + 1, false, val0);
    } else {
      vlen, val := 0, val0;
      val[0] := NUL;
    }
    var k := DecodePiece(key, klen, round);
    pair := None;
    if k.Some? {
      var v := DecodePiece(val, vlen, round);
      if v.Some? {
        pair := Some(Pair(k.value, v.value));
      }
    }
  }

  /** cflare_url_parse_query; the callback is told of every pair, in order. */
  method ParseQuery(input: Option<string>, round: int -> int) returns (calls: Calls)
    ensures calls == if input == None then Calls([], false) else CallsFor(Pieces(input.value, 0), [], round)
  {
    calls := Calls([], false);
    if input == None {
      return;
    }
    var s, i, pairs := input.value, 0, [];
    var key, val := new char[64], new char[64];
    while i < |s|
      invariant key != val && key.Length >= 64 && val.Length >= 64 && fresh(key) && fresh(val)
      invariant CallsFor(Pieces(s, 0), [], round) == CallsFor(Pieces(s, i), pairs, round)
      decreases |s| - i
    {
      ghost var from := i;
      var pair;
      i, pair, key, val := ReadPair(s, i, key, val, round);
      PiecesTurn(s, from, i, RawAt(s, from), Pieces(s, i + 1));
      CallsTurn(RawAt(s, from), Pieces(s, i + 1), pairs, pair, round);
      if pair == None {
        return Calls(pairs, true);
      }
      i, pairs := i + 1, pairs + [pair.value];
    }
    calls := Calls(pairs, false);
  }

  // Encoding, in every way a client may choose, and the way back.

  datatype Unit = Plain(c: char) | Plus | Escape(hi: char, lo: char)

  predicate HexDigit(c: char) {
    0 <= CharToNumber(c) < 16
  }

  predicate GoodUnit(u: Unit, isKey: bool) {
    match u
    case Plain(c) => c !in "%+&" && (isKey ==> c != '=')
    case Plus => true
    case Escape(hi, lo) => HexDigit(hi) && HexDigit(lo)
  }

  predicate GoodUnits(units: seq<Unit>, isKey: bool) {
    forall j | 0 <= j < |units| :: GoodUnit(units[j], isKey)
  }

  function PrintUnit(u: Unit): string {
    match u
    case Plain(c) => [c]
    case Plus => "+"
    case Escape(hi, lo) => ['%', hi, lo]
  }

  function UnitChar(u: Unit): char
    requires u.Escape? ==> HexDigit(u.hi) && HexDigit(u.lo)
  {
    match u
    case Plain(c) => c
    case Plus => ' '
    case Escape(hi, lo) => (16 * CharToNumber(hi) + CharToNumber(lo)) as char
  }

  function PrintUnits(units: seq<Unit>): string {
    if units == [] then [] else PrintUnit(units[0]) + PrintUnits(units[1..])
  }

  function UnitsText(units: seq<Unit>): string
    requires GoodUnits(units, false)
  {
    if units == [] then [] else [UnitChar(units[0])] + UnitsText(units[1..])
  }

  /** Every byte has an escape. */
  function EscapeOf(c: char): (u: Unit)
    requires c as int < 256
    ensures GoodUnit(u, true) && UnitChar(u) == c
  {
    DigitValues(c as int / 16);
    DigitValues(c as int % 16);
    Escape(UPPER_DIGITS[c as int / 16], UPPER_DIGITS[c as int % 16])
  }

  /** An escape stands for the byte that its two digits write, in either case. */
  lemma EscapedByte(hi: nat, lo: nat)
    requires hi < 16 && lo < 16
    ensures forall a, b | (a == DIGITS[hi] || a == UPPER_DIGITS[hi]) && (b == DIGITS[lo] || b == UPPER_DIGITS[lo]) ::
      GoodUnit(Escape(a, b), true) && UnitChar(Escape(a, b)) == (16 * hi + lo) as char
  {
    DigitValues(hi);
    DigitValues(lo);
  }

  predicate IsHex(c: char) {
    c in DIGITS || c in UPPER_DIGITS
  }

  predicate IsAlnum(c: char) {
    '0' <= c <= '9' || 'a' <= c <= 'z' || 'A' <= c <= 'Z'
  }

  /** What the two characters of an escape come to. A NUL ends the number. */
  lemma EscapeKinds(hi: char, lo: char, round: int -> int)
    requires IsDouble(round)
    ensures var v := EscapeValue(hi, lo, round);
      && (IsHex(hi) && IsHex(lo) ==> v == Number(16 * CharToNumber(hi) + CharToNumber(lo)))
      && (IsHex(hi) && lo == NUL ==> v == Number(CharToNumber(hi)))
      && (hi == NUL || (IsAlnum(hi) && !IsHex(hi)) ==> v == NotANumber)
      && (IsHex(hi) && IsAlnum(lo) && !IsHex(lo) ==> v == NotANumber)
      && (hi != NUL && !IsAlnum(hi) ==> v == AssertionFails)
      && (IsHex(hi) && lo != NUL && !IsAlnum(lo) ==> v == AssertionFails)
  {
    NoOtherDigits(hi);
    NoOtherDigits(lo);
    var s := ['0', 'x', hi, lo];
    if hi == NUL {
      CStrIs(s, "0x");
    } else if lo == NUL {
      CStrIs(s, ['0', 'x', hi]);
    } else {
      CStrOfClean(s);
    }
    ShortHex(CStr(s), hi, lo);
    ComputedIsExact(CStr(s), round);
  }

  lemma EscapeIsRead(hi: char, lo: char, round: int -> int)
    requires HexDigit(hi) && HexDigit(lo) && IsDouble(round)
    ensures EscapeValue(hi, lo, round) == Number(16 * CharToNumber(hi) + CharToNumber(lo))
  {
    NoOtherDigits(hi);
    NoOtherDigits(lo);
    EscapeKinds(hi, lo, round);
  }

  lemma CStrIs(s: string, t: string)
    requires |t| < |s| && s[..|t|] == t && s[|t|] == NUL && NUL !in t
    ensures CStr(s) == t
  {
    CStrStops(s, |t|);
    CStrOfClean(t);
  }

  lemma ShortHex(t: string, hi: char, lo: char)
    ensures t == "0x" ==> Meaning(t) == NotANumber
    ensures t == ['0', 'x', hi] ==> Meaning(t) == OneHex(Number(0), hi)
    ensures t == ['0', 'x', hi, lo] ==> Meaning(t) == OneHex(OneHex(Number(0), hi), lo)
  {
    if |t| > 2 && t[0] == '0' && t[1] == 'x' {
      var d := t[2..];
      assert |d| == 1 && d[0] == hi ==> d == [hi] && d[..0] == [];
      assert |d| == 2 && d[0] == hi && d[1] == lo ==> d == [hi, lo] && d[..1] == [hi] && [hi][..0] == [];
      assert DigitsOf([], 16) == Number(0) && DigitsOf([hi], 16) == OneHex(Number(0), hi);
    }
  }

  /** One hexadecimal digit more. */
  function OneHex(v: Numbers.Parsed, c: char): Numbers.Parsed {
    match v
    case Number(n) =>
      if CharToNumber(c) < 0 then AssertionFails
      else if CharToNumber(c) >= 16 then NotANumber
      else Number(16 * n + CharToNumber(c))
    case bad => bad
  }

  /** One unit is decoded to its character, wherever it stands. */
  lemma UnitIsRead(s: string, i: nat, u: Unit, written: string, round: int -> int)
    requires GoodUnit(u, false) && IsDouble(round)
    requires i + |PrintUnit(u)| <= |s| && s[i..i + |PrintUnit(u)|] == PrintUnit(u)
    ensures Unescape(s, i, written, round) == Unescape(s, i + |PrintUnit(u)|, written + [UnitChar(u)], round)
  {
    if u.Escape? {
      var t := s[i..i + 3];
      assert s[i] == t[0] && s[i + 1] == t[1] && s[i + 2] == t[2];
      EscapeTurn(s, i, u.hi, u.lo, written, round);
    } else {
      assert s[i] == s[i..i + 1][0];
    }
  }

  lemma EscapeTurn(s: string, i: nat, hi: char, lo: char, written: string, round: int -> int)
    requires HexDigit(hi) && HexDigit(lo) && IsDouble(round)
    requires i + 3 <= |s| && s[i] == '%' && s[i + 1] == hi && s[i + 2] == lo
    ensures Unescape(s, i, written, round) == Unescape(s, i + 3, written + [UnitChar(Escape(hi, lo))], round)
  {
    EscapeIsRead(hi, lo, round);
  }

  lemma FirstUnit(s: string, i: nat, units: seq<Unit>)
    requires i <= |s| && units != [] && s[i..] == PrintUnits(units)
    ensures var n := i + |PrintUnit(units[0])|;
      n <= |s| && s[i..n] == PrintUnit(units[0]) && s[n..] == PrintUnits(units[1..])
  {
    var t := PrintUnit(units[0]);
    assert s[i..][..|t|] == t && s[i..][|t|..] == PrintUnits(units[1..]);
  }

  lemma {:induction false} UnitsAreRead(s: string, i: nat, units: seq<Unit>, written: string, round: int -> int)
    requires GoodUnits(units, false) && IsDouble(round) && i <= |s| && s[i..] == PrintUnits(units)
    ensures Unescape(s, i, written, round) == Decoded(written + UnitsText(units))
    decreases |units|
  {
    if units == [] {
      assert i == |s| && written + UnitsText(units) == written;
    } else {
      var u, rest := units[0], units[1..];
      FirstUnit(s, i, units);
      UnitIsRead(s, i, u, written, round);
      UnitsAreRead(s, i + |PrintUnit(u)|, rest, written + [UnitChar(u)], round);
      Regrouped(written, [UnitChar(u)], UnitsText(rest));
    }
  }

  lemma Regrouped(a: string, b: string, c: string)
    ensures a + b + c == a + (b + c)
  {
  }

  /** A piece in any encoding is seen as the text it encodes. */
  lemma PieceIsSeen(units: seq<Unit>, round: int -> int)
    requires GoodUnits(units, false) && IsDouble(round)
    ensures Seen(PrintUnits(units), round) == Some(UnitsText(units))
  {
    var s := PrintUnits(units);
    assert s[0..] == s && [] + UnitsText(units) == UnitsText(units);
    UnitsAreRead(s, 0, units, [], round);
  }

  /** What decodes alone decodes in front of anything. */
  lemma {:induction false} FrontDecodes(a: string, s: string, i: nat, written: string, round: int -> int)
    requires a <= s && i <= |a| && Unescape(a, i, written, round).Decoded?
    ensures Unescape(s, i, written, round) == Unescape(s, |a|, Unescape(a, i, written, round).text, round)
    decreases |a| - i
  {
    if i < |a| {
      var r := ReadAt(a, i, round);
      FrontDecodes(a, s, i + r.width, written + [r.c], round);
    }
  }

  /** A bad escape ends the decoding: what was read stays decoded, and the rest stays as it was. An
      escape is bad when two characters do not follow, or when the first of them that is no
      hexadecimal digit is another letter or ends the text; any other character ends the run. */
  lemma DecodingStops(units: seq<Unit>, tail: string, round: int -> int)
    requires GoodUnits(units, false) && IsDouble(round)
    ensures var d := Unescape(PrintUnits(units) + "%" + tail, 0, [], round);
      && (|tail| < 2 ==> d == Malformed(UnitsText(units)))
      && (|tail| >= 2 && (tail[0] == NUL || (IsAlnum(tail[0]) && !IsHex(tail[0]))) ==> d == Malformed(UnitsText(units)))
      && (|tail| >= 2 && IsHex(tail[0]) && IsAlnum(tail[1]) && !IsHex(tail[1]) ==> d == Malformed(UnitsText(units)))
      && (|tail| >= 2 && tail[0] != NUL && !IsAlnum(tail[0]) ==> d == Aborts)
      && (|tail| >= 2 && IsHex(tail[0]) && tail[1] != NUL && !IsAlnum(tail[1]) ==> d == Aborts)
  {
    var a := PrintUnits(units);
    var s, i := a + "%" + tail, |a|;
    assert a[0..] == a && [] + UnitsText(units) == UnitsText(units);
    UnitsAreRead(a, 0, units, [], round);
    FrontDecodes(a, s, 0, [], round);
    assert s[i] == '%' && |s| == i + 1 + |tail|;
    if |tail| >= 2 {
      assert s[i + 1] == tail[0] && s[i + 2] == tail[1];
      EscapeKinds(tail[0], tail[1], round);
    }
  }

  // Taking a query apart.

  /** A pair as it is written: `bare` has no equals sign. */
  datatype Part = Part(raw: Raw, bare: bool)

  /** Text whose parts can be told apart. */
  predicate CleanPart(p: Part) {
    Clean(p.raw.key, true) && Clean(p.raw.value, false) && (p.bare ==> p.raw.value == [])
  }

  predicate AllClean(ps: seq<Part>) {
    forall j | 0 <= j < |ps| :: CleanPart(ps[j])
  }

  function PrintPart(p: Part): string {
    p.raw.key + if p.bare then [] else ['='] + p.raw.value
  }

  function PrintQuery(ps: seq<Part>): string {
    if ps == [] then [] else if |ps| == 1 then PrintPart(ps[0]) else PrintPart(ps[0]) + ['&'] + PrintQuery(ps[1..])
  }

  function Raws(ps: seq<Part>): seq<Raw> {
    if ps == [] then [] else [ps[0].raw] + Raws(ps[1..])
  }

  /** The last pair is not written at all: a bare key that is empty. */
  predicate EndsEmpty(ps: seq<Part>) {
    ps != [] && if |ps| == 1 then PrintPart(ps[0]) == [] else EndsEmpty(ps[1..])
  }

  /** `t` stands in `s` at `i`. */
  ghost predicate Stands(s: string, i: nat, t: string) {
    i + |t| <= |s| && forall k | i <= k < i + |t| :: s[k] == t[k - i]
  }

  lemma StandsBoth(s: string, i: nat, a: string, b: string)
    ensures Stands(s, i, a + b) <==> Stands(s, i, a) && Stands(s, i + |a|, b)
  {
  }

  lemma StandsWhole(s: string)
    ensures Stands(s, 0, s)
  {
  }

  predicate Clean(t: string, isKey: bool) {
    '&' !in t && (isKey ==> '=' !in t)
  }

  lemma {:induction false} PieceIsFound(s: string, i: nat, t: string, isKey: bool)
    requires Stands(s, i, t) && Clean(t, isKey) && (i + |t| < |s| ==> Stops(s[i + |t|], isKey))
    ensures PieceEnd(s, i, isKey) == i + |t| && PieceText(s, i, isKey) == t
    decreases |t|
  {
    if t != [] {
      var rest := t[1..];
      assert s[i] == t[0] && t == [t[0]] + rest;
      PieceIsFound(s, i + 1, rest, isKey);
    }
  }

  /** A pair stands in `s` at `i`, up to the end or an ampersand. */
  ghost predicate PairStands(s: string, i: nat, p: Part) {
    var k, f := i + |p.raw.key|, i + |PrintPart(p)|;
    && f <= |s| && Stands(s, i, p.raw.key) && (f < |s| ==> s[f] == '&')
    && (!p.bare ==> s[k] == '=' && Stands(s, k + 1, p.raw.value))
  }

  lemma PartStands(s: string, i: nat, p: Part, post: string)
    requires Stands(s, i, PrintPart(p) + post) && i + |PrintPart(p) + post| == |s| && (post != [] ==> post[0] == '&')
    ensures PairStands(s, i, p) && Stands(s, i + |PrintPart(p)|, post)
  {
    StandsBoth(s, i, PrintPart(p), post);
    StandsBoth(s, i, p.raw.key, if p.bare then [] else ['='] + p.raw.value);
    if !p.bare {
      StandsBoth(s, i + |p.raw.key|, ['='], p.raw.value);
    }
  }

  function After(i: nat, p: Part): nat {
    i + |PrintPart(p)| + 1
  }

  /** Pairs stand one after the other, from `i` to the end. */
  ghost predicate Laid(s: string, i: nat, ps: seq<Part>)
    decreases |ps|
  {
    if ps == [] then i >= |s| else i < |s| && PairStands(s, i, ps[0]) && Laid(s, After(i, ps[0]), ps[1..])
  }

  /** A pair is found where it stands, whole. */
  lemma PairIsFound(s: string, i: nat, p: Part)
    requires CleanPart(p) && PairStands(s, i, p)
    ensures PairEnd(s, i) + 1 == After(i, p) && RawAt(s, i) == p.raw
  {
    PieceIsFound(s, i, p.raw.key, true);
    if !p.bare {
      PieceIsFound(s, i + |p.raw.key| + 1, p.raw.value, false);
    }
  }

  lemma {:induction false} PiecesAreFound(s: string, i: nat, ps: seq<Part>)
    requires AllClean(ps) && Laid(s, i, ps)
    ensures Pieces(s, i) == Raws(ps)
    decreases |ps|
  {
    if ps != [] {
      PiecesAreFound(s, After(i, ps[0]), ps[1..]);
      PairIsFound(s, i, ps[0]);
      PiecesTurn(s, i, After(i, ps[0]) - 1, ps[0].raw, Raws(ps[1..]));
    }
  }

  /** A printed query is laid out so, if something or an ampersand is written last. */
  lemma {:induction false} PrintedIsLaid(s: string, i: nat, ps: seq<Part>, tail: string)
    requires Stands(s, i, PrintQuery(ps) + tail) && i + |PrintQuery(ps) + tail| == |s| && ps != []
    requires tail == "&" || (tail == [] && !EndsEmpty(ps))
    ensures Laid(s, i, ps)
    decreases |ps|
  {
    var post := QueryTail(ps, ps[1..], tail);
    PartStands(s, i, ps[0], post);
    if |ps| > 1 {
      NextStands(s, i + |PrintPart(ps[0])|, PrintQuery(ps[1..]) + tail);
      PrintedIsLaid(s, After(i, ps[0]), ps[1..], tail);
    }
  }

  lemma NextStands(s: string, i: nat, q: string)
    requires Stands(s, i, ['&'] + q)
    ensures Stands(s, i + 1, q)
  {
    StandsBoth(s, i, ['&'], q);
  }

  /** What is printed after the first pair. */
  lemma QueryTail(ps: seq<Part>, rest: seq<Part>, tail: string) returns (post: string)
    requires ps != [] && rest == ps[1..] && (tail == "&" || tail == [])
    ensures PrintQuery(ps) + tail == PrintPart(ps[0]) + post && (post != [] ==> post[0] == '&')
    ensures post == if rest == [] then tail else ['&'] + (PrintQuery(rest) + tail)
  {
    post := if rest == [] then tail else ['&'] + (PrintQuery(rest) + tail);
    assert |ps| > 1 ==>
      PrintPart(ps[0]) + ['&'] + PrintQuery(rest) + tail == PrintPart(ps[0]) + (['&'] + (PrintQuery(rest) + tail));
  }

  // Whole queries.

  /** A pair in some encoding, with or without its equals sign. */
  datatype Coded = Coded(key: seq<Unit>, value: seq<Unit>, bare: bool)

  predicate GoodCoded(c: Coded) {
    GoodUnits(c.key, true) && GoodUnits(c.value, false) && (c.bare ==> c.value == [])
  }

  predicate AllCoded(cs: seq<Coded>) {
    forall j | 0 <= j < |cs| :: GoodCoded(cs[j])
  }

  function PartOf(c: Coded): Part {
    Part(Raw(PrintUnits(c.key), PrintUnits(c.value)), c.bare)
  }

  function PartsOf(cs: seq<Coded>): seq<Part> {
    if cs == [] then [] else [PartOf(cs[0])] + PartsOf(cs[1..])
  }

  function TextOf(c: Coded): Pair
    requires GoodCoded(c)
  {
    Pair(UnitsText(c.key), UnitsText(c.value))
  }

  function TextsOf(cs: seq<Coded>): seq<Pair>
    requires AllCoded(cs)
  {
    if cs == [] then [] else [TextOf(cs[0])] + TextsOf(cs[1..])
  }

  lemma {:induction false} UnitsAreClean(units: seq<Unit>, isKey: bool)
    requires GoodUnits(units, isKey)
    ensures Clean(PrintUnits(units), isKey)
    decreases |units|
  {
    if units != [] {
      UnitsAreClean(units[1..], isKey);
    }
  }

  lemma {:induction false} CodedIsClean(cs: seq<Coded>)
    requires AllCoded(cs)
    ensures AllClean(PartsOf(cs)) && |PartsOf(cs)| == |cs|
    ensures cs != [] ==> (EndsEmpty(PartsOf(cs)) <==> PrintPart(PartOf(cs[|cs| - 1])) == [])
    decreases |cs|
  {
    if cs != [] {
      UnitsAreClean(cs[0].key, true);
      UnitsAreClean(cs[0].value, false);
      CodedIsClean(cs[1..]);
      assert PartsOf(cs)[1..] == PartsOf(cs[1..]);
    }
  }

  lemma {:induction false} PiecesAreSeen(cs: seq<Coded>, before: seq<Pair>, round: int -> int)
    requires AllCoded(cs) && IsDouble(round)
    ensures CallsFor(Raws(PartsOf(cs)), before, round) == Calls(before + TextsOf(cs), false)
    decreases |cs|
  {
    if cs == [] {
      assert before + TextsOf(cs) == before;
    } else {
      var now, rest := before + [TextOf(cs[0])], cs[1..];
      assert PartsOf(cs)[1..] == PartsOf(rest);
      PieceIsSeen(cs[0].key, round);
      PieceIsSeen(cs[0].value, round);
      PiecesAreSeen(rest, now, round);
      CallsTurn(PartOf(cs[0]).raw, Raws(PartsOf(rest)), before, Some(TextOf(cs[0])), round);
      assert now + TextsOf(rest) == before + TextsOf(cs);
    }
  }

  /** A query in any encoding, with or without equals signs, gives exactly the pairs it encodes, in
      order; only a pair that is written by nothing at all at the end is not seen. */
  lemma {:induction false} QueryRoundTrip(cs: seq<Coded>, round: int -> int)
    requires AllCoded(cs) && IsDouble(round)
    ensures var unseen := cs != [] && cs[|cs| - 1].bare && cs[|cs| - 1].key == [];
      CallsFor(Pieces(PrintQuery(PartsOf(cs)), 0), [], round)
        == Calls(TextsOf(if unseen then cs[..|cs| - 1] else cs), false)
  {
    var s, ps := PrintQuery(PartsOf(cs)), PartsOf(cs);
    CodedIsClean(cs);
    if cs != [] && EndsEmpty(ps) {
      var front := cs[..|cs| - 1];
      NothingPrinted(cs[|cs| - 1]);
      LastIsNothing(cs, front);
      if front != [] {
        CodedIsClean(front);
        QuerySeen(front, "&", round);
      }
    } else if cs != [] {
      NothingPrinted(cs[|cs| - 1]);
      assert s + [] == s;
      QuerySeen(cs, [], round);
    }
  }

  lemma NothingPrinted(c: Coded)
    requires GoodCoded(c)
    ensures PrintPart(PartOf(c)) == [] <==> c.bare && c.key == []
  {
    assert c.key != [] ==> PrintUnits(c.key) == PrintUnit(c.key[0]) + PrintUnits(c.key[1..]);
  }

  lemma {:induction false} LastIsNothing(cs: seq<Coded>, front: seq<Coded>)
    requires AllCoded(cs) && cs != [] && front == cs[..|cs| - 1] && PrintPart(PartOf(cs[|cs| - 1])) == []
    ensures PrintQuery(PartsOf(cs)) == if front == [] then [] else PrintQuery(PartsOf(front)) + "&"
    decreases |cs|
  {
    if |cs| > 1 {
      var rest := cs[1..];
      assert front[1..] == rest[..|rest| - 1] && rest[|rest| - 1] == cs[|cs| - 1];
      LastIsNothing(rest, front[1..]);
      assert PartsOf(cs)[1..] == PartsOf(rest) && PartsOf(front)[1..] == PartsOf(front[1..]);
    }
  }

  lemma QuerySeen(cs: seq<Coded>, tail: string, round: int -> int)
    requires AllCoded(cs) && cs != [] && IsDouble(round)
    requires tail == "&" || (tail == [] && !EndsEmpty(PartsOf(cs)))
    ensures CallsFor(Pieces(PrintQuery(PartsOf(cs)) + tail, 0), [], round) == Calls(TextsOf(cs), false)
  {
    var s, ps := PrintQuery(PartsOf(cs)) + tail, PartsOf(cs);
    CodedIsClean(cs);
    StandsWhole(s);
    PrintedIsLaid(s, 0, ps, tail);
    PiecesAreFound(s, 0, ps);
    PiecesAreSeen(cs, [], round);
    assert [] + TextsOf(cs) == TextsOf(cs);
  }

  /** Every list of pairs of byte strings has an encoding. */
  function Encode(pairs: seq<Pair>): (cs: seq<Coded>)
    requires forall j | 0 <= j < |pairs| :: Bytes(pairs[j].key) && Bytes(pairs[j].value)
    ensures AllCoded(cs) && TextsOf(cs) == pairs
  {
    if pairs == [] then [] else [Coded(EscapeAll(pairs[0].key), EscapeAll(pairs[0].value), false)] + Encode(pairs[1..])
  }

  predicate Bytes(s: string) {
    forall j | 0 <= j < |s| :: s[j] as int < 256
  }

  function EscapeAll(s: string): (units: seq<Unit>)
    requires Bytes(s)
    ensures GoodUnits(units, true) && GoodUnits(units, false) && UnitsText(units) == s
  {
    if s == [] then [] else [EscapeOf(s[0])] + EscapeAll(s[1..])
  }
}
