/** Which request heads are taken, and what the others are answered with, told by the lines of the
    head alone. */
module HeadVerdicts {
  import opened Options
  import opened Text
  import opened Numbers
  import opened Heads
  import opened HeadRoundTrip
  import opened RequestHead

  /** A line that is not blank, and its line end. */
  datatype Line = Line(text: string, crlf: bool)

  predicate GoodLine(l: Line) {
    l.text != [] && '\n' !in l.text && (!l.crlf ==> NoCrAtEnd(l.text))
  }

  predicate GoodLines(lines: seq<Line>) {
    forall i | 0 <= i < |lines| :: GoodLine(lines[i])
  }

  function LineAndEnd(l: Line): string {
    l.text + Eol(l.crlf)
  }

  function LinesText(lines: seq<Line>): string {
    if lines == [] then [] else LinesText(lines[..|lines| - 1]) + LineAndEnd(lines[|lines| - 1])
  }

  /** Every text is lines and a blank line, or lines and a last part without a newline. */
  lemma {:induction false} TextIsLines(s: string) returns (lines: seq<Line>, ended: bool, crlf: bool, more: string)
    ensures GoodLines(lines) && s == LinesText(lines) + (if ended then Eol(crlf) else []) + more
    ensures !ended ==> '\n' !in more
    decreases |s|
  {
    lines, ended, crlf, more := [], false, false, s;
    if '\n' in s {
      var l, rest := CutFirst(s);
      if l.text == [] {
        ended, crlf, more := true, l.crlf, rest;
        assert s == [] + Eol(crlf) + more;
      } else {
        lines, ended, crlf, more := TextIsLines(rest);
        LinesTextCons(l, lines);
        Regrouped(LineAndEnd(l), LinesText(lines), if ended then Eol(crlf) else [], more);
        lines := [l] + lines;
      }
    } else {
      assert s == [] + [] + s;
    }
  }

  lemma Regrouped(a: string, b: string, c: string, d: string)
    ensures a + (b + c + d) == a + b + c + d
  {
  }

  lemma CutFirst(s: string) returns (l: Line, rest: string)
    requires '\n' in s
    ensures s == LineAndEnd(l) + rest && '\n' !in l.text && (!l.crlf ==> NoCrAtEnd(l.text)) && |rest| < |s|
  {
    var p := FirstOf(s, '\n');
    FoundIfThere(s, '\n');
    NoneBefore(s, '\n', 0);
    rest := s[p + 1..];
    if p > 0 && s[p - 1] == '\r' {
      l := Line(s[..p - 1], true);
      assert s[..p - 1] + "\r\n" + rest == s;
    } else {
      l := Line(s[..p], false);
      assert s[..p] + "\n" + rest == s;
    }
  }

  lemma {:induction false} LinesTextCons(l: Line, rest: seq<Line>)
    ensures LinesText([l] + rest) == LineAndEnd(l) + LinesText(rest)
    decreases |rest|
  {
    var all := [l] + rest;
    if rest == [] {
      assert all[..0] == [];
    } else {
      var front := rest[..|rest| - 1];
      assert all[..|all| - 1] == [l] + front;
      LinesTextCons(l, front);
      Joined(LineAndEnd(l), LinesText(front), LineAndEnd(rest[|rest| - 1]));
    }
  }

  // One line.

  /** The line has a name: it does not begin with white space, and has a colon. */
  predicate HasName(l: Line) {
    l.text != [] && l.text[0] != ' ' && l.text[0] != '\t' && ':' in l.text
  }

  function Colon(l: Line): (p: nat)
    requires ':' in l.text
    ensures p < |l.text| && l.text[p] == ':' && ':' !in l.text[..p]
  {
    FoundIfThere(l.text, ':');
    NoneBefore(l.text, ':', 0);
    FirstOf(l.text, ':')
  }

  function Name(l: Line): string
    requires HasName(l)
  {
    Lower(CStr(l.text[..Colon(l)]))
  }

  /** The value begins two bytes after the colon. Behind a line that ends at its colon that is
      among what follows, `end`, from the line end's last byte but the one that was cut. */
  function Value(l: Line, end: string): Field
    requires HasName(l)
  {
    var p, n := Colon(l) + 2, |l.text|;
    if p <= n then Field(Name(l), l.text[p..], n - p)
    else Field(Name(l), CStr((if l.crlf then "\n" else "") + end), 0xffff_ffff_ffff_ffff)
  }

  predicate IsKnown(known: set<string>, l: Line) {
    HasName(l) && Name(l) in known
  }

  /** What the text of a content length is, for lines that state one. */
  function Length(known: set<string>, l: Line, end: string): Parsed {
    if IsKnown(known, l) && Name(l) == "content-length" then Meaning(CStr(Value(l, end).value)) else Number(0)
  }

  /** The `n`th known line, if it is one, is taken. */
  predicate LineIsGood(known: set<string>, n: nat, l: Line, end: string) {
    HasName(l) && (IsKnown(known, l) ==> n < 32) && Length(known, l, end).Number?
  }

  // All the lines; `end` is what follows them.

  function Fields(known: set<string>, lines: seq<Line>, end: string): seq<Field> {
    if lines == [] then []
    else
      var l := lines[|lines| - 1];
      Fields(known, lines[..|lines| - 1], LineAndEnd(l) + end) + if IsKnown(known, l) then [Value(l, end)] else []
  }

  predicate AllGood(known: set<string>, lines: seq<Line>, end: string) {
    lines == [] ||
    var front, l := lines[..|lines| - 1], lines[|lines| - 1];
    AllGood(known, front, LineAndEnd(l) + end)
    && LineIsGood(known, |Fields(known, front, LineAndEnd(l) + end)|, l, end)
  }

  function LastNamed(fields: seq<Field>, name: string): Option<string> {
    if fields == [] then None
    else if fields[|fields| - 1].name == name then Some(fields[|fields| - 1].value)
    else LastNamed(fields[..|fields| - 1], name)
  }

  /** The content length that is kept is the rounded one. */
  function LengthOf(fields: seq<Field>, round: int -> int): int {
    match LastNamed(fields, "content-length")
    case None => 0
    case Some(v) => (match Computed(CStr(v), round) case Number(n) => n case _ => 0)
  }

  function StaysOpen(fields: seq<Field>): bool {
    match LastNamed(fields, "connection")
    case None => true
    case Some(v) => Contains(CStr(v), "keep-alive")
  }

  function NotesOf(fields: seq<Field>, round: int -> int): Notes {
    Notes(fields, LastNamed(fields, "host"), StaysOpen(fields), LengthOf(fields, round))
  }

  // The parser sees the same.

  lemma LineIsRead(l: Line, tail: string)
    requires GoodLine(l)
    ensures var s := LineAndEnd(l) + tail; var p := FirstOf(s, '\n');
      p >= 0 && FirstLine(s) == l.text && s[p + 1..] == tail
  {
    LineIsFound(l.text, l.crlf, tail);
  }

  /** What the buffer holds from one byte past a line's text on. */
  lemma BehindLine(l: Line, tail: string, beyond: string)
    ensures (LineAndEnd(l) + tail + beyond)[|l.text| + 1..] == (if l.crlf then "\n" else "") + (tail + beyond)
    ensures LineAndEnd(l) + (tail + beyond) == LineAndEnd(l) + tail + beyond
  {
    var cut := l.text + [Eol(l.crlf)[0]];
    var rest := if l.crlf then "\n" else "";
    assert LineAndEnd(l) == cut + rest;
    Behind(cut, rest, tail, beyond);
  }

  lemma Behind(cut: string, rest: string, tail: string, beyond: string)
    ensures (cut + rest + tail + beyond)[|cut|..] == rest + (tail + beyond)
    ensures cut + rest + (tail + beyond) == cut + rest + tail + beyond
  {
  }

  function RefusalOf(known: set<string>, n: nat, l: Line, end: string): (r: Noting) {
    if !HasName(l) then NotNoted(400)
    else if IsKnown(known, l) && n >= 32 then NotNoted(413)
    else if Length(known, l, end) == NotANumber then NotNoted(400)
    else NoteCrashed
  }

  /** A line's effect is to add its field, or it is refused. */
  lemma LineIsNoted(known: set<string>, round: int -> int, l: Line, end: string, after: string, fields: seq<Field>)
    requires GoodLine(l) && IsDouble(round) && after == (if l.crlf then "\n" else "") + end
    ensures var r := NoteText(known, round, l.text, after, NotesOf(fields, round));
      if !LineIsGood(known, |fields|, l, end) then r == RefusalOf(known, |fields|, l, end)
      else r == Noted(NotesOf(fields + if IsKnown(known, l) then [Value(l, end)] else [], round))
  {
    if HasName(l) {
      KeyIsNoted(known, round, l, end, fields);
      LineHasKey(known, round, l, end, after, NotesOf(fields, round));
    } else {
      LineHasNoKey(known, round, l, after, NotesOf(fields, round));
    }
  }

  lemma LineHasNoKey(known: set<string>, round: int -> int, l: Line, after: string, acc: Notes)
    requires l.text != [] && !HasName(l)
    ensures NoteText(known, round, l.text, after, acc) == NotNoted(400)
  {
    FoundIfThere(l.text, ':');
  }

  lemma LineHasKey(known: set<string>, round: int -> int, l: Line, end: string, after: string, acc: Notes)
    requires HasName(l) && after == (if l.crlf then "\n" else "") + end
    ensures NoteText(known, round, l.text, after, acc) == Note(known, round, l.text[..Colon(l)], Value(l, end), acc)
  {
    FoundIfThere(l.text, ':');
    NameIsOwn(known, round, l.text[..Colon(l)], ValueOf(l.text, Colon(l), after), Name(l), acc);
  }

  lemma NameIsOwn(known: set<string>, round: int -> int, key: string, f: Field, name: string, acc: Notes)
    ensures Note(known, round, key, f, acc) == Note(known, round, key, f.(name := name), acc)
  {
  }

  lemma KeyIsNoted(known: set<string>, round: int -> int, l: Line, end: string, fields: seq<Field>)
    requires HasName(l) && IsDouble(round)
    ensures var r := Note(known, round, l.text[..Colon(l)], Value(l, end), NotesOf(fields, round));
      if !LineIsGood(known, |fields|, l, end) then r == RefusalOf(known, |fields|, l, end)
      else r == Noted(NotesOf(fields + if IsKnown(known, l) then [Value(l, end)] else [], round))
  {
    var f := Value(l, end);
    ComputedIsExact(CStr(f.value), round);
    OneMoreField(fields, f, round);
    assert fields + [] == fields;
  }

  lemma OneMoreField(fields: seq<Field>, f: Field, round: int -> int)
    ensures LastNamed(fields + [f], "host") == if f.name == "host" then Some(f.value) else LastNamed(fields, "host")
    ensures StaysOpen(fields + [f])
      == if f.name == "connection" then Contains(CStr(f.value), "keep-alive") else StaysOpen(fields)
    ensures f.name != "content-length" ==> LengthOf(fields + [f], round) == LengthOf(fields, round)
    ensures f.name == "content-length" && Computed(CStr(f.value), round).Number? ==>
      LengthOf(fields + [f], round) == Computed(CStr(f.value), round).value
  {
    assert (fields + [f])[..|fields|] == fields;
  }

  function Stopped(n: Noting): HeaderLines {
    if n.NotNoted? then Refused(n.status) else Crashed
  }

  /** One turn of the header loop. */
  lemma LineTurn(known: set<string>, round: int -> int, l: Line, tail: string, beyond: string, fields: seq<Field>)
    requires GoodLine(l) && IsDouble(round)
    ensures var r := ReadHeaders(known, round, LineAndEnd(l) + tail, beyond, NotesOf(fields, round));
      var end := tail + beyond;
      if !LineIsGood(known, |fields|, l, end) then r == Stopped(RefusalOf(known, |fields|, l, end))
      else
        var now := fields + if IsKnown(known, l) then [Value(l, end)] else [];
        r == ReadHeaders(known, round, tail, beyond, NotesOf(now, round))
  {
    LineIsRead(l, tail);
    BehindLine(l, tail, beyond);
    LineIsNoted(known, round, l, tail + beyond, (LineAndEnd(l) + tail + beyond)[|l.text| + 1..], fields);
  }

  lemma {:induction false} LinesAreNoted(known: set<string>, round: int -> int, lines: seq<Line>, tail: string,
                                         beyond: string)
    requires GoodLines(lines) && AllGood(known, lines, tail + beyond) && IsDouble(round)
    ensures ReadHeaders(known, round, LinesText(lines) + tail, beyond, NO_NOTES)
      == ReadHeaders(known, round, tail, beyond, NotesOf(Fields(known, lines, tail + beyond), round))
    decreases |lines|
  {
    if lines == [] {
      assert LinesText(lines) + tail == tail;
    } else {
      var front, l := lines[..|lines| - 1], lines[|lines| - 1];
      BehindLine(l, tail, beyond);
      Joined(LinesText(front), LineAndEnd(l), tail);
      LinesAreNoted(known, round, front, LineAndEnd(l) + tail, beyond);
      LineTurn(known, round, l, tail, beyond, Fields(known, front, LineAndEnd(l) + tail + beyond));
    }
  }

  lemma Joined(a: string, b: string, c: string)
    ensures a + b + c == a + (b + c)
  {
  }

  // The verdict.

  lemma AfterStart(known: set<string>, round: int -> int, m: Message, tail: string, beyond: string,
                   major: char, minor: char)
    requires GoodStart(m)
    ensures ParseHead(known, round, PrintStart(m) + tail, beyond, major, minor) ==
      match ReadHeaders(known, round, tail, beyond, NO_NOTES)
      case Refused(status) => Rejected(status)
      case Crashed => Aborted
      case Done(notes, rest) => Decide(Start(m.verb, m.path, m.query, m.version, tail), notes, rest, major, minor)
  {
    StartReads(m, tail);
  }

  /** The first line that is not good decides, whatever follows it: 400 for white space at its
      beginning, for a missing colon and for a length that is no number, 413 for the 33rd known
      header. A length with a character that is neither letter nor digit ends the program. */
  lemma BadLineIsRefused(known: set<string>, round: int -> int, m: Message, lines: seq<Line>, l: Line, tail: string,
                         beyond: string, major: char, minor: char)
    requires GoodStart(m) && GoodLines(lines) && GoodLine(l) && IsDouble(round)
    requires AllGood(known, lines, LineAndEnd(l) + tail + beyond)
    ensures var n := |Fields(known, lines, LineAndEnd(l) + tail + beyond)|;
      var text := PrintStart(m) + (LinesText(lines) + (LineAndEnd(l) + tail));
      var v := ParseHead(known, round, text, beyond, major, minor);
      && (!HasName(l) ==> v == Rejected(400))
      && (IsKnown(known, l) && n >= 32 ==> v == Rejected(413))
      && (HasName(l) && (IsKnown(known, l) ==> n < 32) ==>
            && (Length(known, l, tail + beyond) == NotANumber ==> v == Rejected(400))
            && (Length(known, l, tail + beyond) == AssertionFails ==> v == Aborted))
  {
    AfterStart(known, round, m, LinesText(lines) + (LineAndEnd(l) + tail), beyond, major, minor);
    LinesAreNoted(known, round, lines, LineAndEnd(l) + tail, beyond);
    LineTurn(known, round, l, tail, beyond, Fields(known, lines, LineAndEnd(l) + tail + beyond));
  }

  lemma {:induction false} FirstBadLine(known: set<string>, lines: seq<Line>, end: string)
    returns (front: seq<Line>, l: Line, text: string)
    requires GoodLines(lines) && !AllGood(known, lines, end)
    ensures GoodLines(front) && GoodLine(l) && LinesText(lines) == LinesText(front) + LineAndEnd(l) + text
    ensures var after := LineAndEnd(l) + (text + end);
      AllGood(known, front, after) && !LineIsGood(known, |Fields(known, front, after)|, l, text + end)
    decreases |lines|
  {
    var init, last := lines[..|lines| - 1], lines[|lines| - 1];
    if AllGood(known, init, LineAndEnd(last) + end) {
      front, l, text := init, last, [];
      assert [] + end == end && LinesText(lines) == LinesText(init) + LineAndEnd(last) + [];
    } else {
      front, l, text := FirstBadLine(known, init, LineAndEnd(last) + end);
      Joined(text, LineAndEnd(last), end);
      Joined(LinesText(front) + LineAndEnd(l), text, LineAndEnd(last));
      text := text + LineAndEnd(last);
    }
  }

  /** A head with a line that is not good is not taken, whether it comes to an end or not. */
  lemma BadHeadIsRefused(known: set<string>, round: int -> int, m: Message, lines: seq<Line>, tail: string,
                         beyond: string, major: char, minor: char)
    requires GoodStart(m) && GoodLines(lines) && IsDouble(round) && !AllGood(known, lines, tail + beyond)
    ensures !ParseHead(known, round, PrintStart(m) + (LinesText(lines) + tail), beyond, major, minor).Accepted?
  {
    var front, l, text := FirstBadLine(known, lines, tail + beyond);
    Joined(text, tail, beyond);
    Joined(LineAndEnd(l), text + tail, beyond);
    Joined(LinesText(front) + LineAndEnd(l), text, tail);
    Joined(LinesText(front), LineAndEnd(l), text + tail);
    BadLineIsRefused(known, round, m, front, l, text + tail, beyond, major, minor);
  }

  /** Without a blank line a head is not taken; with good lines alone the answer is 400. */
  lemma UnendedIsRefused(known: set<string>, round: int -> int, m: Message, lines: seq<Line>, part: string,
                         beyond: string, major: char, minor: char)
    requires GoodStart(m) && GoodLines(lines) && '\n' !in part && IsDouble(round)
    ensures var v := ParseHead(known, round, PrintStart(m) + (LinesText(lines) + part), beyond, major, minor);
      !v.Accepted? && (AllGood(known, lines, part + beyond) ==> v == Rejected(400))
  {
    if AllGood(known, lines, part + beyond) {
      AfterStart(known, round, m, LinesText(lines) + part, beyond, major, minor);
      LinesAreNoted(known, round, lines, part, beyond);
      FoundIfThere(part, '\n');
    } else {
      BadHeadIsRefused(known, round, m, lines, part, beyond, major, minor);
    }
  }

  /** The version and what it needs: a host for 1.1, no absolute target for 1.2. */
  predicate VersionIsServed(m: Message, fields: seq<Field>, major: char, minor: char) {
    && major == '1'
    && (minor == '1' ==> LastNamed(fields, "host").Some?)
    && (minor == '2' ==> !Contains(CStr(m.path), "://"))
  }

  /** What is handed over of a head with these fields. */
  ghost predicate IsRequest(r: Request, m: Message, fields: seq<Field>, minor: char) {
    && r.verb == m.verb && r.path == m.path && r.query == m.query && r.version == m.version
    && r.headers == fields && r.host == LastNamed(fields, "host")
    && r.keepalive == ((minor == '1' || minor == '2') && StaysOpen(fields))
    && match LastNamed(fields, "content-length")
       case None => r.contentLength == 0
       case Some(v) => ExactNumber(CStr(v)) ==> r.contentLength == Meaning(CStr(v)).value % 0x1_0000_0000_0000_0000
  }

  /** A head that ends is taken if and only if every line of it is good and its version is served.
      Then the request says what the lines say, and exactly what follows is left. */
  lemma HeadIsTaken(known: set<string>, round: int -> int, m: Message, lines: seq<Line>, crlf: bool, more: string,
                    beyond: string, major: char, minor: char)
    requires GoodStart(m) && GoodLines(lines) && IsDouble(round)
    ensures var text := PrintStart(m) + (LinesText(lines) + (Eol(crlf) + more));
      var v := ParseHead(known, round, text, beyond, major, minor);
      var end := Eol(crlf) + more + beyond;
      var fields := Fields(known, lines, end);
      && (v.Accepted? <==> AllGood(known, lines, end) && VersionIsServed(m, fields, major, minor))
      && (v.Accepted? ==> v.rest == more && IsRequest(v.request, m, fields, minor))
      && (AllGood(known, lines, end) && major != '1' ==> v == Rejected(400))
      && (AllGood(known, lines, end) && major == '1' && minor == '1' && LastNamed(fields, "host") == None ==>
            v == Rejected(400))
  {
    var tail := Eol(crlf) + more;
    if AllGood(known, lines, tail + beyond) {
      GoodHeadIsDecided(known, round, m, lines, crlf, more, beyond, major, minor);
      DecidedSo(m, Fields(known, lines, tail + beyond), round, LinesText(lines) + tail, more, major, minor);
    } else {
      BadHeadIsRefused(known, round, m, lines, tail, beyond, major, minor);
    }
  }

  lemma GoodHeadIsDecided(known: set<string>, round: int -> int, m: Message, lines: seq<Line>, crlf: bool, more: string,
                          beyond: string, major: char, minor: char)
    requires GoodStart(m) && GoodLines(lines) && IsDouble(round)
    requires AllGood(known, lines, Eol(crlf) + more + beyond)
    ensures var tail := LinesText(lines) + (Eol(crlf) + more);
      ParseHead(known, round, PrintStart(m) + tail, beyond, major, minor)
        == Decide(Start(m.verb, m.path, m.query, m.version, tail),
                  NotesOf(Fields(known, lines, Eol(crlf) + more + beyond), round), more, major, minor)
  {
    var tail := Eol(crlf) + more;
    AfterStart(known, round, m, LinesText(lines) + tail, beyond, major, minor);
    LinesAreNoted(known, round, lines, tail, beyond);
    BlankEnds(known, round, crlf, more, beyond, NotesOf(Fields(known, lines, tail + beyond), round));
  }

  lemma DecidedSo(m: Message, fields: seq<Field>, round: int -> int, tail: string, more: string,
                  major: char, minor: char)
    requires IsDouble(round)
    ensures var start := Start(m.verb, m.path, m.query, m.version, tail);
      var v := Decide(start, NotesOf(fields, round), more, major, minor);
      && (v.Accepted? <==> VersionIsServed(m, fields, major, minor))
      && (v.Accepted? ==> v.rest == more && IsRequest(v.request, m, fields, minor))
      && (major != '1' ==> v == Rejected(400))
      && (major == '1' && minor == '1' && LastNamed(fields, "host") == None ==> v == Rejected(400))
  {
    LengthIsExact(fields, round);
  }

  lemma BlankEnds(known: set<string>, round: int -> int, crlf: bool, more: string, beyond: string, notes: Notes)
    ensures ReadHeaders(known, round, Eol(crlf) + more, beyond, notes) == Done(notes, more)
  {
    LineIsFound([], crlf, more);
    assert [] + Eol(crlf) + more == Eol(crlf) + more;
  }

  lemma LengthIsExact(fields: seq<Field>, round: int -> int)
    requires IsDouble(round)
    ensures match LastNamed(fields, "content-length")
      case None => LengthOf(fields, round) == 0
      case Some(v) => ExactNumber(CStr(v)) ==> LengthOf(fields, round) == Meaning(CStr(v)).value
  {
    var v := LastNamed(fields, "content-length");
    if v.Some? {
      ComputedIsExact(CStr(v.value), round);
    }
  }

  /** A request line without its two spaces or its line end: 400, but 414 for a missing second space. */
  lemma BadStartIsRefused(known: set<string>, round: int -> int, verb: string, target: string, part: string,
                          beyond: string, major: char, minor: char)
    ensures ' ' !in part ==> ParseHead(known, round, part, beyond, major, minor) == Rejected(400)
    ensures ' ' !in verb && ' ' !in part ==>
      ParseHead(known, round, verb + " " + part, beyond, major, minor) == Rejected(414)
    ensures ' ' !in verb && ' ' !in target && '\n' !in part ==>
      ParseHead(known, round, verb + " " + (target + " " + part), beyond, major, minor) == Rejected(400)
  {
    FoundIfThere(part, ' ');
    FoundIfThere(part, '\n');
    if ' ' !in verb {
      WordReads(verb, part);
      WordReads(verb, target + " " + part);
    }
    if ' ' !in target {
      WordReads(target, part);
    }
  }

  /** The parser that works in place takes exactly the same heads, if the version has all its bytes. */
  lemma InPlaceIsTaken(known: set<string>, round: int -> int, past: nat -> char, m: Message, lines: seq<Line>,
                       crlf: bool, more: string, beyond: string, at: nat, b: string, pos: nat, n: nat, r: ParsedHead)
    requires GoodStart(m) && |m.version| >= 8 && GoodLines(lines) && IsDouble(round)
    requires ParsedAs(known, round, past, PrintStart(m) + (LinesText(lines) + (Eol(crlf) + more)), beyond,
               at, b, pos, n, r)
    ensures var end := Eol(crlf) + more + beyond;
      r.Taken? <==>
        AllGood(known, lines, end) && VersionIsServed(m, Fields(known, lines, end), m.version[5], m.version[7])
  {
    var w := PrintStart(m) + (LinesText(lines) + (Eol(crlf) + more));
    var s := ReadStart(w);
    var major, minor := VersionByte(b, past, at, s, 5), VersionByte(b, past, at, s, 7);
    StartReads(m, LinesText(lines) + (Eol(crlf) + more));
    HeadIsTaken(known, round, m, lines, crlf, more, beyond, major, minor);
    if AllGood(known, lines, Eol(crlf) + more + beyond) {
      LinesAreNoted(known, round, lines, Eol(crlf) + more, beyond);
      BlankEnds(known, round, crlf, more, beyond, NotesOf(Fields(known, lines, Eol(crlf) + more + beyond), round));
      assert HeadersEnd(known, round, w, beyond);
    }
  }
}
