/** The scanner, which only counts newlines, and the header loop, which cuts lines, agree on
    where a request head ends. */
module HeadFraming {
  import opened Options
  import opened Text
  import opened Heads

  lemma StopIsUnique(s: string, d: nat, e: nat)
    requires StopsAt(s, d) && StopsAt(s, e)
    ensures d == e
  {
    assert d < e ==> 0 <= d + 1 <= e;
    assert e < d ==> 0 <= e + 1 <= d;
  }

  /** No early stop in the first `c` bytes. */
  predicate NoStop(s: string, c: nat)
    requires c <= |s|
  {
    forall k | 0 <= k <= c :: Newlines(s[..k]) < 2
  }

  /** A newline, then nothing but carriage returns, up to place `k`. */
  ghost predicate AfterNewline(s: string, k: nat) {
    exists d :: NewlineThen(s, d, k)
  }

  predicate NewlineThen(s: string, d: int, k: nat) {
    0 <= d < k <= |s| && s[d] == '\n' && forall j | d < j < k :: s[j] == '\r'
  }

  /** A blank line ends at `e`. */
  ghost predicate BlankAt(s: string, e: nat) {
    e < |s| && s[e] == '\n' && AfterNewline(s, e)
  }

  lemma NewlineStep(s: string, k: nat, l: nat)
    requires k <= |s| && k == l + 1
    ensures AfterNewline(s, k) <==> s[l] == '\n' || (s[l] == '\r' && AfterNewline(s, l))
  {
    if s[l] == '\n' {
      assert NewlineThen(s, l, k);
    } else if s[l] == '\r' && AfterNewline(s, l) {
      var d :| NewlineThen(s, d, l);
      assert NewlineThen(s, d, k);
    }
    if AfterNewline(s, k) {
      var d :| NewlineThen(s, d, k);
      assert d < l ==> NewlineThen(s, d, l);
    }
  }

  lemma CounterStep(s: string, k: nat)
    requires 0 < k <= |s|
    ensures Newlines(s[..k]) == ScanStep(Newlines(s[..k - 1]), s[k - 1])
  {
    assert s[..k][..k - 1] == s[..k - 1];
  }

  lemma {:induction false} CounterIs(s: string, k: nat)
    requires k <= |s|
    ensures Newlines(s[..k]) > 0 <==> AfterNewline(s, k)
  {
    if k > 0 {
      CounterIs(s, k - 1);
      CounterStep(s, k);
      NewlineStep(s, k, k - 1);
    }
  }

  lemma {:induction false} StopsAreBlank(s: string, n: nat)
    requires n <= |s|
    ensures NoStop(s, n) <==> forall e | 0 <= e < n :: !BlankAt(s, e)
  {
    if n > 0 {
      var m := n - 1;
      StopsAreBlank(s, m);
      CounterIs(s, m);
      CounterStep(s, n);
      assert NoStop(s, n) <==> NoStop(s, m) && Newlines(s[..n]) < 2;
      assert NoStop(s, m) ==> Newlines(s[..m]) < 2;
      assert NoStop(s, m) ==> (Newlines(s[..n]) >= 2 <==> BlankAt(s, m));
    }
  }

  /** Where the scanner stops is where the first blank line ends, whatever else is in the text. */
  lemma StopIsFirstBlank(s: string, e: nat)
    ensures StopsAt(s, e) <==> BlankAt(s, e) && forall k | 0 <= k < e :: !BlankAt(s, k)
  {
    if e < |s| {
      StopsAreBlank(s, e);
      StopsAreBlank(s, e + 1);
      assert s[..e + 1][..e] == s[..e];
    }
  }

  /** Within a line the counter never rises, and any byte but a carriage return clears it. */
  lemma {:induction false} LineScan(s: string, c: nat, k: nat, x: nat)
    requires c <= k <= |s| && forall j | c <= j < k :: s[j] != '\n'
    ensures Newlines(s[..k]) <= Newlines(s[..c])
    ensures c <= x < k && s[x] != '\r' ==> Newlines(s[..k]) == 0
    decreases k
  {
    if k > c {
      LineScan(s, c, k - 1, x);
      assert s[..k][..k - 1] == s[..k - 1];
    }
  }

  /** A line from `c` to the newline at `p`, begun with the counter at most one: none of it stops
      the scanner, and if it has something in it, at `x`, the counter ends at one. */
  lemma LineEnds(s: string, c: nat, p: nat, x: nat)
    requires c <= x < p < |s| && s[p] == '\n' && forall j | c <= j < p :: s[j] != '\n'
    requires NoStop(s, c) && s[x] != '\r'
    ensures Newlines(s[..p + 1]) == 1 && NoStop(s, p + 1)
  {
    forall k | c <= k <= p ensures Newlines(s[..k]) < 2 {
      LineScan(s, c, k, x);
    }
    LineScan(s, c, p, x);
    assert s[..p + 1][..p] == s[..p];
  }

  /** A blank line after a line that ended with the counter at one stops the scanner. */
  lemma BlankLineEnds(s: string, c: nat, p: nat)
    requires c <= p < |s| && s[p] == '\n' && forall j | c <= j < p :: s[j] == '\r'
    requires NoStop(s, c) && Newlines(s[..c]) == 1
    ensures StopsAt(s, p)
  {
    forall k | c <= k <= p ensures Newlines(s[..k]) < 2 {
      OnlyCr(s, c, k);
    }
    OnlyCr(s, c, p);
    assert s[..p + 1][..p] == s[..p];
  }

  lemma {:induction false} OnlyCr(s: string, c: nat, k: nat)
    requires c <= k <= |s| && forall j | c <= j < k :: s[j] == '\r'
    ensures Newlines(s[..k]) == Newlines(s[..c])
    decreases k
  {
    if k > c {
      OnlyCr(s, c, k - 1);
      assert s[..k][..k - 1] == s[..k - 1];
    }
  }

  /** The newline that ends the first blank line from `c` on, when every line before it has a
      colon; otherwise -1. */
  function BlankEnd(s: string, c: nat): (p: int)
    requires c <= |s|
    ensures p < |s|
    ensures p >= 0 ==> c <= p
    decreases |s| - c
  {
    var p := FirstFrom(s, '\n', c);
    if p < 0 then -1
    else if p == c || (p == c + 1 && s[c] == '\r') then p
    else if c <= FirstFrom(s, ':', c) < p then BlankEnd(s, p + 1)
    else -1
  }

  /** The first line of `s[c..]`, seen from the whole of `s`. */
  lemma FirstLineIn(s: string, c: nat, tail: string) returns (p: nat)
    requires c <= |s| && tail == s[c..] && FirstOf(tail, '\n') >= 0
    ensures c <= p < |s| && p == FirstFrom(s, '\n', c)
    ensures tail[FirstOf(tail, '\n') + 1..] == s[p + 1..]
    ensures FirstLine(tail) == [] <==> p == c || (p == c + 1 && s[c] == '\r')
    ensures FirstOf(FirstLine(tail), ':') >= 0 ==> c <= FirstFrom(s, ':', c) < p
  {
    var pos := FirstOf(tail, '\n');
    p := c + pos;
    NoneBefore(tail, '\n', 0);
    assert forall j | c <= j < p :: s[j] == tail[j - c];
    FirstFromIs(s, '\n', c, p);
    var col := FirstOf(FirstLine(tail), ':');
    if col >= 0 {
      assert s[c + col] == ':';
      NoneBefore(s, ':', c);
    }
  }

  /** What follows the first blank line, when every line before it has a colon. */
  function AfterBlank(tail: string): Option<string>
    decreases |tail|
  {
    var pos := FirstOf(tail, '\n');
    if pos < 0 then None
    else if FirstLine(tail) == [] then Some(tail[pos + 1..])
    else if FirstOf(FirstLine(tail), ':') >= 0 then AfterBlank(tail[pos + 1..])
    else None
  }

  /** A header loop that gets to the end leaves what follows the first blank line. */
  lemma {:induction false} HeadersLeave(known: set<string>, round: int -> int, tail: string, beyond: string, acc: Notes)
    requires ReadHeaders(known, round, tail, beyond, acc).Done?
    ensures AfterBlank(tail) == Some(ReadHeaders(known, round, tail, beyond, acc).rest)
    decreases |tail|
  {
    if FirstLine(tail) != [] {
      var acc' := NoteLine(known, round, tail, beyond, acc).notes;
      HeadersLeave(known, round, tail[FirstOf(tail, '\n') + 1..], beyond, acc');
    }
  }

  /** One turn: the two ways of looking for the blank line take the same line off. */
  lemma SameLine(s: string, c: nat) returns (p: nat)
    requires c <= |s| && AfterBlank(s[c..]).Some?
    ensures c <= p < |s|
    ensures (AfterBlank(s[c..]) == Some(s[p + 1..]) && BlankEnd(s, c) == p)
      || (AfterBlank(s[c..]) == AfterBlank(s[p + 1..]) && BlankEnd(s, c) == BlankEnd(s, p + 1))
  {
    var tail := s[c..];
    AfterBlankStep(tail);
    p := FirstLineIn(s, c, tail);
    var blank := p == c || (p == c + 1 && s[c] == '\r');
    assert BlankEnd(s, c) == if blank then p else BlankEnd(s, p + 1) by {
      BlankEndStep(s, c, p);
    }
  }

  lemma BlankEndStep(s: string, c: nat, p: nat)
    requires c <= p < |s| && p == FirstFrom(s, '\n', c)
    ensures p == c || (p == c + 1 && s[c] == '\r') ==> BlankEnd(s, c) == p
    ensures !(p == c || (p == c + 1 && s[c] == '\r')) && c <= FirstFrom(s, ':', c) < p ==>
      BlankEnd(s, c) == BlankEnd(s, p + 1)
  {
  }

  lemma AfterBlankStep(tail: string)
    requires AfterBlank(tail).Some?
    ensures FirstOf(tail, '\n') >= 0
    ensures FirstLine(tail) == [] ==> AfterBlank(tail) == Some(tail[FirstOf(tail, '\n') + 1..])
    ensures FirstLine(tail) != [] ==> FirstOf(FirstLine(tail), ':') >= 0
    ensures FirstLine(tail) != [] ==> AfterBlank(tail) == AfterBlank(tail[FirstOf(tail, '\n') + 1..])
  {
  }

  lemma {:induction false} BlankEndIsThere(s: string, c: nat) returns (e: nat)
    requires c <= |s| && AfterBlank(s[c..]).Some?
    ensures e < |s| && e == BlankEnd(s, c) && AfterBlank(s[c..]) == Some(s[e + 1..])
    decreases |s| - c
  {
    var p := SameLine(s, c);
    if AfterBlank(s[c..]) == Some(s[p + 1..]) && BlankEnd(s, c) == p {
      e := p;
    } else {
      e := BlankEndIsThere(s, p + 1);
    }
  }

  /** Lines cut from a place where the scanner's counter stands at one: the newline ending the
      first blank line is where the scanner stops. */
  lemma {:induction false} BlankStops(s: string, c: nat)
    requires c <= |s| && Newlines(s[..c]) == 1 && NoStop(s, c) && BlankEnd(s, c) >= 0
    ensures StopsAt(s, BlankEnd(s, c))
    decreases |s| - c
  {
    var p := FirstFrom(s, '\n', c);
    if p == c || (p == c + 1 && s[c] == '\r') {
      NoneBefore(s, '\n', c);
      BlankLineEnds(s, c, p);
    } else {
      NoneBefore(s, '\n', c);
      LineEnds(s, c, p, FirstFrom(s, ':', c));
      BlankStops(s, p + 1);
    }
  }

  /** The request line ends at a newline at `c - 1`, with nothing after its last space, just
      before `b`, but the version. */
  lemma StartEnds(s: string) returns (b: nat, c: nat)
    requires ReadStart(s).Start?
    ensures 0 < b < c <= |s| && c == |s| - |ReadStart(s).rest| && ReadStart(s).rest == s[c..]
    ensures s[b - 1] == ' ' && s[c - 1] == '\n' && forall j | b <= j < c - 1 :: s[j] != '\n'
  {
    var m := FirstOf(s, ' ');
    assert ReadStart(s) == ReadTarget(s[..m], s[m + 1..]);
    var s1 := s[m + 1..];
    var p := FirstOf(s1, ' ');
    b := m + p + 2;
    assert s1[p + 1..] == s[b..] && s[b - 1] == s1[p];
    assert ReadTarget(s[..m], s1) == ReadVersion(s[..m], s1[..p], s[b..]);
    c := VersionEnds(s, b, s[..m], s1[..p]);
  }

  lemma VersionEnds(s: string, b: nat, verb: string, target: string) returns (c: nat)
    requires b <= |s| && ReadVersion(verb, target, s[b..]).Start?
    ensures b < c <= |s| && ReadVersion(verb, target, s[b..]).rest == s[c..]
    ensures s[c - 1] == '\n' && forall j | b <= j < c - 1 :: s[j] != '\n'
  {
    var v := FirstLineIn(s, b, s[b..]);
    NoneBefore(s, '\n', b);
    c := v + 1;
  }

  /** For an accepted head the unread bytes begin right after the scanner's stop, if and only
      if there is no blank line inside the request line, where the parser does not look for one. */
  lemma ParserStopsWithScanner(known: set<string>, round: int -> int, s: string, beyond: string, major: char,
                               minor: char, e: nat)
    requires StopsAt(s, e)
    requires ParseHead(known, round, s, beyond, major, minor).Accepted?
    ensures ParseHead(known, round, s, beyond, major, minor).rest == s[e + 1..]
      <==> NoStop(s, |s| - |ReadStart(s).rest|)
  {
    var b, c := StartEnds(s);
    AcceptedRest(known, round, s, beyond, major, minor);
    HeadersLeave(known, round, ReadStart(s).rest, beyond, NO_NOTES);
    var end := BlankEndIsThere(s, c);
    BlankStopsWith(s, b, c, e);
    assert |s[BlankEnd(s, c) + 1..]| == |s[e + 1..]| ==> BlankEnd(s, c) == e;
  }

  lemma AcceptedRest(known: set<string>, round: int -> int, s: string, beyond: string, major: char, minor: char)
    requires ParseHead(known, round, s, beyond, major, minor).Accepted?
    ensures ReadStart(s).Start? && ReadHeaders(known, round, ReadStart(s).rest, beyond, NO_NOTES).Done?
    ensures ParseHead(known, round, s, beyond, major, minor).rest
      == ReadHeaders(known, round, ReadStart(s).rest, beyond, NO_NOTES).rest
  {
  }

  lemma BlankStopsWith(s: string, b: nat, c: nat, e: nat)
    requires StopsAt(s, e) && 0 < b < c <= |s|
    requires s[b - 1] == ' ' && s[c - 1] == '\n' && forall j | b <= j < c - 1 :: s[j] != '\n'
    requires BlankEnd(s, c) >= 0
    ensures BlankEnd(s, c) == e <==> NoStop(s, c)
  {
    if NoStop(s, c) {
      LineEnds(s, b - 1, c - 1, b - 1);
      BlankStops(s, c);
      StopIsUnique(s, e, BlankEnd(s, c));
    } else {
      var k :| 0 <= k <= c && Newlines(s[..k]) >= 2;
      assert e < k;
    }
  }

  /** The parser takes a method of two newlines, and every byte after the scanner's stop. */
  lemma BlankLineInMethod(known: set<string>, round: int -> int)
    ensures var s := "\n\n  xxxxx1x0\n\n";
      && StopsAt(s, 1) && ParseHead(known, round, s, [], '1', '0').Accepted?
      && ParseHead(known, round, s, [], '1', '0').rest == []
  {
    TwoNewlinesStop("\n\n  xxxxx1x0\n\n");
    BlankMethodReads();
    NoHeaders(known, round);
    Accepts(known, round, "\n\n  xxxxx1x0\n\n", "\n");
  }

  lemma Accepts(known: set<string>, round: int -> int, s: string, tail: string)
    requires ReadStart(s).Start? && ReadStart(s).rest == tail
    requires ReadHeaders(known, round, tail, [], NO_NOTES) == Done(NO_NOTES, [])
    ensures ParseHead(known, round, s, [], '1', '0').Accepted? && ParseHead(known, round, s, [], '1', '0').rest == []
  {
  }

  lemma TwoNewlinesStop(s: string)
    requires |s| > 2 && s[0] == '\n' && s[1] == '\n'
    ensures StopsAt(s, 1)
  {
    assert s[..1][..0] == s[..0] == [] && s[..2][..1] == s[..1];
    assert Newlines(s[..0]) == 0 && Newlines(s[..1]) == 1 && Newlines(s[..2]) == 2;
  }

  lemma NoHeaders(known: set<string>, round: int -> int)
    ensures ReadHeaders(known, round, "\n", [], NO_NOTES) == Done(NO_NOTES, [])
  {
    FirstOfIs("\n", '\n', 0);
    assert "\n"[..0] == [] && "\n"[1..] == [];
  }

  lemma BlankMethodReads()
    ensures ReadStart("\n\n  xxxxx1x0\n\n") == Start("\n\n", [], None, "xxxxx1x0", "\n")
  {
    var s, line := "\n\n  xxxxx1x0\n\n", "xxxxx1x0\n\n";
    var target := [' '] + line;
    assert s[3..] == target && target[1..] == line && target[..0] == [];
    FirstOfIs(s, ' ', 2);
    FirstOfIs(target, ' ', 0);
    assert s[..2] == "\n\n";
    assert ReadStart(s) == ReadTarget("\n\n", target) == ReadVersion("\n\n", [], line);
    BlankMethodVersion(line);
  }

  lemma BlankMethodVersion(line: string)
    requires line == "xxxxx1x0\n\n"
    ensures ReadVersion("\n\n", [], line) == Start("\n\n", [], None, "xxxxx1x0", "\n")
  {
    FirstOfIs(line, '\n', 8);
    assert line[..8] == "xxxxx1x0" && line[9..] == "\n";
  }
}
