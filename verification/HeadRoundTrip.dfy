/** Printing a request and parsing it gives the request back, with exactly the bytes
    printed after it left unread (sections 3.1.1, 3.2 and 3.5 of RFC 7230). */
module HeadRoundTrip {
  import opened Options
  import opened Text
  import opened Numbers
  import opened Heads

  datatype Header = Header(name: string, value: string, crlf: bool)

  /** A request as a client means it. Each line chooses its own line end. */
  datatype Message = Message(
    verb: string, path: string, query: Option<string>, version: string, crlf: bool,
    headers: seq<Header>, endCrlf: bool)

  function Eol(crlf: bool): string {
    if crlf then "\r\n" else "\n"
  }

  function Target(m: Message): string {
    m.path + match m.query case None => [] case Some(q) => "?" + q
  }

  function PrintStart(m: Message): string {
    m.verb + " " + Target(m) + " " + m.version + Eol(m.crlf)
  }

  function LineText(h: Header): string {
    h.name + ": " + h.value
  }

  function PrintHeaders(headers: seq<Header>, endCrlf: bool): string {
    if headers == [] then Eol(endCrlf)
    else LineText(headers[0]) + Eol(headers[0].crlf) + PrintHeaders(headers[1..], endCrlf)
  }

  function Print(m: Message): string {
    PrintStart(m) + PrintHeaders(m.headers, m.endCrlf)
  }

  predicate Free(s: string, bad: string) {
    forall k | 0 <= k < |s| :: s[k] !in bad
  }

  predicate NoCrAtEnd(s: string) {
    s != [] ==> s[|s| - 1] != '\r'
  }

  predicate GoodHeader(h: Header) {
    && Free(h.name, [':', '\n', NUL]) && Free(h.value, ['\n', NUL])
    && (h.name != [] ==> h.name[0] != ' ' && h.name[0] != '\t')
    && NoCrAtEnd(h.value)
  }

  predicate GoodStart(m: Message) {
    && Free(m.verb, " \n") && Free(m.path, " \n?")
    && (m.query.Some? ==> Free(m.query.value, " \n"))
    && Free(m.version, "\n") && NoCrAtEnd(m.version)
  }

  // One line at a time.

  /** Before a carriage return and a newline a line may end in anything. */
  lemma LineIsFound(line: string, crlf: bool, more: string)
    requires '\n' !in line && (crlf || NoCrAtEnd(line))
    ensures var s := line + Eol(crlf) + more; var p := FirstOf(s, '\n');
      p == |line| + (if crlf then 1 else 0) && ChopCr(s[..p]) == line && s[p + 1..] == more
  {
    var s, p := line + Eol(crlf) + more, |line| + if crlf then 1 else 0;
    assert s[p] == '\n';
    assert forall k | 0 <= k < |line| :: s[k] == line[k];
    FirstOfIs(s, '\n', p);
    if crlf {
      assert s[..p] == line + ['\r'];
      assert (line + ['\r'])[..|line|] == line;
    } else {
      assert s[..p] == line;
    }
  }

  /** A line with either line end is found whole, and what follows it is untouched. */
  lemma LineReads(line: string, crlf: bool, more: string)
    requires '\n' !in line && NoCrAtEnd(line)
    ensures var s := line + Eol(crlf) + more; var p := FirstOf(s, '\n');
      p == |line| + (if crlf then 1 else 0) && ChopCr(s[..p]) == line && s[p + 1..] == more
  {
    LineIsFound(line, crlf, more);
  }

  lemma HeaderTextReads(h: Header)
    requires GoodHeader(h)
    ensures var line := LineText(h);
      && '\n' !in line && NoCrAtEnd(line) && line != [] && line[0] != ' ' && line[0] != '\t'
      && FirstOf(line, ':') == |h.name| && line[..|h.name|] == h.name
      && |h.name| + 2 <= |line| && line[|h.name| + 2..] == h.value
  {
    var line := LineText(h);
    assert forall k | 0 <= k < |h.name| :: line[k] == h.name[k];
    assert forall k | |h.name| + 2 <= k < |line| :: line[k] == h.value[k - |h.name| - 2];
    assert line[|h.name|] == ':' && line[|h.name| + 1] == ' ';
    FirstOfIs(line, ':', |h.name|);
    assert h.value != [] ==> line[|line| - 1] == h.value[|h.value| - 1];
  }

  /** What the header loop notes down for a list of headers, one after the other. */
  function NoteAll(known: set<string>, round: int -> int, headers: seq<Header>, acc: Notes): Noting {
    if headers == [] then Noted(acc)
    else
      var h := headers[0];
      match Note(known, round, h.name, Field([], h.value, |h.value|), acc)
      case Noted(acc') => NoteAll(known, round, headers[1..], acc')
      case bad => bad
  }

  /** One turn of the header loop takes exactly the first printed header. */
  lemma HeaderReads(known: set<string>, round: int -> int, h: Header, rest: string, beyond: string, acc: Notes)
    requires GoodHeader(h) && Note(known, round, h.name, Field([], h.value, |h.value|), acc).Noted?
    ensures ReadHeaders(known, round, LineText(h) + Eol(h.crlf) + rest, beyond, acc)
      == ReadHeaders(known, round, rest, beyond, Note(known, round, h.name, Field([], h.value, |h.value|), acc).notes)
  {
    HeaderTextReads(h);
    LineReads(LineText(h), h.crlf, rest);
  }

  lemma {:induction false} HeadersRead(known: set<string>, round: int -> int, headers: seq<Header>, endCrlf: bool,
                                       more: string, beyond: string, acc: Notes)
    requires forall i | 0 <= i < |headers| :: GoodHeader(headers[i])
    requires NoteAll(known, round, headers, acc).Noted?
    ensures ReadHeaders(known, round, PrintHeaders(headers, endCrlf) + more, beyond, acc)
      == Done(NoteAll(known, round, headers, acc).notes, more)
    decreases |headers|
  {
    if headers == [] {
      LineReads([], endCrlf, more);
      assert PrintHeaders(headers, endCrlf) + more == [] + Eol(endCrlf) + more;
    } else {
      var h, rest := headers[0], PrintHeaders(headers[1..], endCrlf) + more;
      assert PrintHeaders(headers, endCrlf) + more == LineText(h) + Eol(h.crlf) + rest;
      HeaderReads(known, round, h, rest, beyond, acc);
      var acc' := Note(known, round, h.name, Field([], h.value, |h.value|), acc).notes;
      HeadersRead(known, round, headers[1..], endCrlf, more, beyond, acc');
    }
  }

  lemma TargetReads(m: Message)
    requires GoodStart(m)
    ensures var t := Target(m); var q := FirstOf(t, '?');
      && ' ' !in t
      && (m.query == None ==> q < 0 && t == m.path)
      && (m.query.Some? ==> q == |m.path| && t[..q] == m.path && t[q + 1..] == m.query.value)
  {
    var t := Target(m);
    assert forall k | 0 <= k < |m.path| :: t[k] == m.path[k];
    if m.query.Some? {
      assert forall k | |m.path| + 1 <= k < |t| :: t[k] == m.query.value[k - |m.path| - 1];
      FirstOfIs(t, '?', |m.path|);
    }
  }

  lemma Regroup(verb: string, target: string, version: string, eol: string, more: string)
    ensures verb + " " + target + " " + version + eol + more == verb + " " + (target + " " + (version + eol + more))
  {
  }

  lemma StartReads(m: Message, more: string)
    requires GoodStart(m)
    ensures ReadStart(PrintStart(m) + more) == Start(m.verb, m.path, m.query, m.version, more)
  {
    var t, line := Target(m), m.version + Eol(m.crlf) + more;
    Regroup(m.verb, t, m.version, Eol(m.crlf), more);
    assert ReadStart(PrintStart(m) + more) == ReadTarget(m.verb, t + " " + line) by {
      WordReads(m.verb, t + " " + line);
    }
    assert ReadTarget(m.verb, t + " " + line) == ReadVersion(m.verb, t, line) by {
      TargetReads(m);
      WordReads(t, line);
    }
    VersionReads(m, more);
  }

  lemma VersionReads(m: Message, more: string)
    requires GoodStart(m)
    ensures ReadVersion(m.verb, Target(m), m.version + Eol(m.crlf) + more)
      == Start(m.verb, m.path, m.query, m.version, more)
  {
    TargetReads(m);
    LineReads(m.version, m.crlf, more);
  }

  /** A word without spaces is found whole. */
  lemma WordReads(word: string, more: string)
    requires ' ' !in word
    ensures var s := word + " " + more; FirstOf(s, ' ') == |word| && s[..|word|] == word && s[|word| + 1..] == more
  {
    var s := word + " " + more;
    assert forall k | 0 <= k < |word| :: s[k] == word[k];
    FirstOfIs(s, ' ', |word|);
  }

  // What the notes say, header by header.

  /** The value the last header of this name has, in whatever case the name is written. */
  function LastValue(headers: seq<Header>, name: string): Option<string> {
    if headers == [] then None
    else if Lower(headers[|headers| - 1].name) == name then Some(headers[|headers| - 1].value)
    else LastValue(headers[..|headers| - 1], name)
  }

  function Kept(known: set<string>, headers: seq<Header>): seq<Field> {
    if headers == [] then []
    else
      var h := headers[|headers| - 1];
      Kept(known, headers[..|headers| - 1]) +
      if Lower(h.name) in known then [Field(Lower(h.name), h.value, |h.value|)] else []
  }

  const IMPORTANT: set<string> := {"host", "connection", "content-length"}

  /** Few enough headers are known, and every content length is a number. */
  predicate GoodHeaders(known: set<string>, headers: seq<Header>) {
    && IMPORTANT <= known
    && (forall i | 0 <= i < |headers| :: GoodHeader(headers[i]))
    && |Kept(known, headers)| <= MAX_HEADERS
    && (forall i | 0 <= i < |headers| && Lower(headers[i].name) == "content-length" :: ExactNumber(headers[i].value))
  }

  predicate ExactNumber(s: string) {
    Meaning(s).Number? && -EXACT < Meaning(s).value < EXACT
  }

  /** The notes that a list of headers stands for. */
  function Meant(known: set<string>, headers: seq<Header>): Notes
    requires forall i | 0 <= i < |headers| && Lower(headers[i].name) == "content-length" ::
      ExactNumber(headers[i].value)
  {
    LastLengthIsExact(headers);
    Notes(Kept(known, headers),
          LastValue(headers, "host"),
          match LastValue(headers, "connection") case None => true case Some(v) => Contains(v, "keep-alive"),
          match LastValue(headers, "content-length") case None => 0 case Some(v) => Meaning(v).value)
  }

  lemma {:induction false} LastLengthIsExact(headers: seq<Header>)
    requires forall i | 0 <= i < |headers| && Lower(headers[i].name) == "content-length" ::
      ExactNumber(headers[i].value)
    ensures LastValue(headers, "content-length").Some? ==> ExactNumber(LastValue(headers, "content-length").value)
  {
    if headers != [] {
      LastLengthIsExact(headers[..|headers| - 1]);
    }
  }

  lemma {:induction false} KeptGrows(known: set<string>, headers: seq<Header>, i: nat)
    requires i <= |headers|
    ensures |Kept(known, headers[..i])| <= |Kept(known, headers)|
    decreases |headers|
  {
    if i == |headers| {
      assert headers[..i] == headers;
    } else {
      assert headers[..|headers| - 1][..i] == headers[..i];
      KeptGrows(known, headers[..|headers| - 1], i);
    }
  }

  lemma FrontIsGood(known: set<string>, headers: seq<Header>)
    requires GoodHeaders(known, headers) && headers != []
    ensures GoodHeaders(known, headers[..|headers| - 1])
  {
    KeptGrows(known, headers, |headers| - 1);
  }

  /** Noting one more header, from what the ones before it stand for. */
  lemma NoteOne(known: set<string>, round: int -> int, headers: seq<Header>)
    requires headers != [] && IsDouble(round)
    requires GoodHeaders(known, headers) && GoodHeaders(known, headers[..|headers| - 1])
    ensures var h := headers[|headers| - 1];
      Note(known, round, h.name, Field([], h.value, |h.value|), Meant(known, headers[..|headers| - 1]))
        == Noted(Meant(known, headers))
  {
    var front, h := headers[..|headers| - 1], headers[|headers| - 1];
    var name := Lower(h.name);
    assert CStr(h.name) == h.name && CStr(h.value) == h.value by {
      CStrOfClean(h.name);
      CStrOfClean(h.value);
    }
    if name !in known {
      assert Meant(known, headers) == Meant(known, front);
    } else {
      assert |Meant(known, front).headers| < MAX_HEADERS;
      if name == "content-length" {
        ComputedIsExact(h.value, round);
      }
    }
  }

  lemma {:induction false} NoteAllSnoc(known: set<string>, round: int -> int, headers: seq<Header>, h: Header,
                                       acc: Notes)
    ensures NoteAll(known, round, headers + [h], acc) ==
      match NoteAll(known, round, headers, acc)
      case Noted(notes) => Note(known, round, h.name, Field([], h.value, |h.value|), notes)
      case bad => bad
    decreases |headers|
  {
    if headers == [] {
      assert headers + [h] == [h];
    } else {
      var x := headers[0];
      assert (headers + [h])[1..] == headers[1..] + [h];
      match Note(known, round, x.name, Field([], x.value, |x.value|), acc)
      case Noted(acc') => NoteAllSnoc(known, round, headers[1..], h, acc');
      case _ =>
    }
  }

  lemma {:induction false} NotesAreMeant(known: set<string>, round: int -> int, headers: seq<Header>)
    requires GoodHeaders(known, headers) && IsDouble(round)
    ensures NoteAll(known, round, headers, NO_NOTES) == Noted(Meant(known, headers))
  {
    if headers != [] {
      FrontIsGood(known, headers);
      NotesAreMeant(known, round, headers[..|headers| - 1]);
      LastIsNoted(known, round, headers);
    }
  }

  lemma LastIsNoted(known: set<string>, round: int -> int, headers: seq<Header>)
    requires headers != [] && IsDouble(round)
    requires GoodHeaders(known, headers) && GoodHeaders(known, headers[..|headers| - 1])
    requires NoteAll(known, round, headers[..|headers| - 1], NO_NOTES) == Noted(Meant(known, headers[..|headers| - 1]))
    ensures NoteAll(known, round, headers, NO_NOTES) == Noted(Meant(known, headers))
  {
    NoteOne(known, round, headers);
    NoteAllSnoc(known, round, headers[..|headers| - 1], headers[|headers| - 1], NO_NOTES);
    assert headers == headers[..|headers| - 1] + [headers[|headers| - 1]];
  }

  // The whole request.

  /** A request this server takes: version 1.x, with a host if it is 1.1, and without an absolute
      target if it is 1.2. */
  predicate GoodMessage(known: set<string>, m: Message) {
    && GoodStart(m) && GoodHeaders(known, m.headers)
    && |m.version| >= 8 && m.version[5] == '1'
    && (m.version[7] == '1' ==> LastValue(m.headers, "host").Some?)
    && (m.version[7] == '2' ==> !Contains(CStr(m.path), "://"))
  }

  function MeantRequest(known: set<string>, m: Message): Request
    requires GoodMessage(known, m)
  {
    var n := Meant(known, m.headers);
    Request(m.verb, m.path, m.query, m.version, n.headers, n.host,
            n.keepalive && (m.version[7] == '1' || m.version[7] == '2'), n.contentLength % SIZE_MODULUS)
  }

  /** Parsing what was printed gives back every field, and leaves exactly what came after. */
  lemma PrintedRequestParses(known: set<string>, round: int -> int, m: Message, more: string, beyond: string)
    requires GoodMessage(known, m) && IsDouble(round)
    ensures ParseHead(known, round, Print(m) + more, beyond, m.version[5], m.version[7])
      == Accepted(MeantRequest(known, m), more)
  {
    var tail := PrintHeaders(m.headers, m.endCrlf) + more;
    assert Print(m) + more == PrintStart(m) + tail;
    StartReads(m, tail);
    NotesAreMeant(known, round, m.headers);
    HeadersRead(known, round, m.headers, m.endCrlf, more, beyond, NO_NOTES);
  }
}
