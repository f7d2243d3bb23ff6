/** The request line, parsed in place, and the whole of a head with it. */
module RequestHead {
  import opened Options
  import opened Text
  import opened Heads
  import opened RequestReader
  import opened RequestParser

  datatype StartRefs = StartRefs(verb: Slice, path: Slice, query: Option<Slice>, version: Slice)

  datatype StartStep = Started(refs: StartRefs) | StartRefused(status: nat)

  /** The slice lies below `limit` with this text and a NUL after it. */
  ghost predicate Sits(b: string, s: Slice, text: string, limit: nat) {
    s.len == |text| && s.off + s.len < limit && Reads(b, s, text, limit)
  }

  ghost predicate StartRefers(b: string, refs: StartRefs, s: StartLine, limit: nat)
    requires s.Start?
  {
    && Sits(b, refs.verb, s.verb, limit)
    && TargetRefers(b, refs.path, refs.query, s.path, s.query, limit)
    && Sits(b, refs.version, s.version, limit)
  }

  ghost predicate TargetRefers(b: string, path: Slice, query: Option<Slice>, pathText: string,
                               queryText: Option<string>, limit: nat) {
    && Sits(b, path, pathText, limit)
    && (query.Some? <==> queryText.Some?)
    && (query.Some? ==> Sits(b, query.value, queryText.value, limit))
  }

  lemma TargetStays(b: string, b': string, path: Slice, query: Option<Slice>, pathText: string,
                    queryText: Option<string>, limit: nat, limit': nat)
    requires TargetRefers(b, path, query, pathText, queryText, limit)
    requires limit <= limit' <= |b'| == |b| && b[..limit] == b'[..limit]
    ensures TargetRefers(b', path, query, pathText, queryText, limit')
  {
    ReadsStays(b, b', path, pathText, limit, limit');
    if query.Some? {
      ReadsStays(b, b', query.value, queryText.value, limit, limit');
    }
  }

  lemma StartStays(b: string, b': string, refs: StartRefs, s: StartLine, limit: nat, limit': nat)
    requires s.Start? && StartRefers(b, refs, s, limit)
    requires limit <= limit' <= |b'| == |b| && b[..limit] == b'[..limit]
    ensures StartRefers(b', refs, s, limit')
  {
    ReadsStays(b, b', refs.verb, s.verb, limit, limit');
    TargetStays(b, b', refs.path, refs.query, s.path, s.query, limit, limit');
    ReadsStays(b, b', refs.version, s.version, limit, limit');
  }

  /** The parser stands at `pos` in `b`, with `tail` received and not parsed and `beyond` after it. */
  ghost predicate Stands(b: string, pos: nat, n: nat, tail: string, beyond: string) {
    && |b| == MAX_LENGTH && 0 < pos && pos + n <= |b| && b[pos - 1] != '\r'
    && b[pos..pos + n] == tail && b[pos + n..] == beyond
  }

  lemma StandsStill(b: string, b': string, k: nat, pos: nat, n: nat, tail: string, beyond: string)
    requires Stands(b, pos, n, tail, beyond) && k < pos && |b'| == |b| && b[k..] == b'[k..]
    ensures Stands(b', pos, n, tail, beyond)
  {
    SameFrom(b, b', k, pos, pos + n);
  }

  /** Takes everything up to the next space off the unparsed bytes, and ends it there. */
  method CutWord(req: RequestBuffer) returns (ok: bool, word: Slice)
    requires req.position + req.nbytes <= req.buffer.Length == MAX_LENGTH
    modifies req, req.buffer
    ensures word.off == old(req.position)
    ensures ok <==> FirstOf(old(req.Window()), ' ') >= 0
    ensures ok ==>
      var w := old(req.Window()); var p := FirstOf(w, ' ');
      && word.off + p + 1 == req.position
      && Stands(req.buffer[..], req.position, req.nbytes, w[p + 1..], old(Beyond(req)))
      && req.buffer[..][..word.off] == old(req.buffer[..])[..word.off]
      && Sits(req.buffer[..], word, w[..p], req.position)
  {
    word := Slice(req.position, 0);
    ghost var w, was, n := req.Window(), req.buffer[..], req.nbytes;
    var pos := FirstIndex(req.buffer, req.position, req.nbytes, ' ');
    ok := pos >= 0;
    if ok {
      word := Slice(req.position, pos);
      WordIsCut(was, word, n, w);
      req.buffer[req.position + pos] := NUL;
      req.nbytes := req.nbytes - (pos + 1);
      req.position := req.position + pos + 1;
      assert req.buffer[..] == was[word.off + pos := NUL];
    }
  }

  lemma WordIsCut(was: string, word: Slice, n: nat, w: string)
    requires word.off + n <= |was| == MAX_LENGTH && w == was[word.off..word.off + n] && word.len < n
    ensures var b, at := was[word.off + word.len := NUL], word.off + word.len + 1;
      && Stands(b, at, n - word.len - 1, w[word.len + 1..], was[word.off + n..])
      && b[..word.off] == was[..word.off] && Sits(b, word, w[..word.len], at)
  {
    CutFacts(was, word.off, n, word.len, word.len);
  }

  /** The target as far as its first question mark, and what comes after it. */
  function PathOf(target: string): string {
    var q := FirstOf(target, '?');
    if q < 0 then target else target[..q]
  }

  function QueryOf(target: string): Option<string> {
    var q := FirstOf(target, '?');
    if q < 0 then None else Some(target[q + 1..])
  }

  /** The target is divided at its first question mark. */
  method SplitTarget(buffer: array<char>, target: Slice, ghost text: string, ghost limit: nat)
    returns (path: Slice, query: Option<Slice>)
    requires limit <= buffer.Length == MAX_LENGTH && Sits(buffer[..], target, text, limit)
    modifies buffer
    ensures TargetRefers(buffer[..], path, query, PathOf(text), QueryOf(text), limit)
    ensures buffer[..][..target.off] == old(buffer[..])[..target.off]
    ensures buffer[..][target.off + target.len..] == old(buffer[..])[target.off + target.len..]
  {
    ghost var was := buffer[..];
    assert buffer[target.off..target.off + target.len] == text;
    var q := FirstIndex(buffer, target.off, target.len, '?');
    if q < 0 {
      return target, None;
    }
    path, query := Slice(target.off, q), Some(Slice(target.off + q + 1, target.len - q - 1));
    DividedTarget(was, target, text, limit, q);
    buffer[target.off + q] := NUL;
    assert buffer[..] == was[target.off + q := NUL];
  }

  lemma DividedTarget(was: string, target: Slice, text: string, limit: nat, q: nat)
    requires |was| <= MAX_LENGTH && limit <= |was| && Sits(was, target, text, limit)
    requires q < |text| && q == FirstOf(text, '?')
    ensures var b := was[target.off + q := NUL];
      && TargetRefers(b, Slice(target.off, q), Some(Slice(target.off + q + 1, target.len - q - 1)),
           PathOf(text), QueryOf(text), limit)
      && b[..target.off] == was[..target.off] && b[target.off + target.len..] == was[target.off + target.len..]
  {
    var b, t := was[target.off + q := NUL], target.off;
    assert b[t..t + q] == was[t..t + target.len][..q];
    assert b[t + q + 1..t + target.len] == was[t..t + target.len][q + 1..];
  }

  method TakePath(req: RequestBuffer) returns (ok: bool, path: Slice, query: Option<Slice>)
    requires req.position + req.nbytes <= req.buffer.Length == MAX_LENGTH
    modifies req, req.buffer
    ensures ok <==> FirstOf(old(req.Window()), ' ') >= 0
    ensures ok ==>
      var w := old(req.Window()); var p := FirstOf(w, ' ');
      && req.position == old(req.position) + p + 1
      && Stands(req.buffer[..], req.position, req.nbytes, w[p + 1..], old(Beyond(req)))
      && req.buffer[..][..old(req.position)] == old(req.buffer[..])[..old(req.position)]
      && TargetRefers(req.buffer[..], path, query, PathOf(w[..p]), QueryOf(w[..p]), req.position)
  {
    ghost var w, beyond := req.Window(), Beyond(req);
    path, query := Slice(0, 0), None;
    var target;
    ok, target := CutWord(req);
    if ok {
      ghost var p, b := FirstOf(w, ' '), req.buffer[..];
      path, query := SplitTarget(req.buffer, target, w[..p], req.position);
      StandsStill(b, req.buffer[..], target.off + target.len, req.position, req.nbytes, w[p + 1..], beyond);
    }
  }

  /** The request line as far as its second space. */
  datatype Words = Words(verb: string, target: string, rest: string) | BadWords(status: nat)

  function ReadWords(s: string): Words {
    var m := FirstOf(s, ' ');
    if m < 0 then BadWords(400) else ReadSecond(s[..m], s[m + 1..])
  }

  function ReadSecond(verb: string, s: string): Words {
    var p := FirstOf(s, ' ');
    if p < 0 then BadWords(414) else Words(verb, s[..p], s[p + 1..])
  }

  lemma WordsAreStart(s: string)
    ensures match ReadWords(s)
      case BadWords(status) => ReadStart(s) == BadStart(status)
      case Words(v, t, rest) =>
        ReadStart(s) == if FirstOf(rest, '\n') < 0 then BadStart(400)
                        else Start(v, PathOf(t), QueryOf(t), FirstLine(rest), rest[FirstOf(rest, '\n') + 1..])
  {
  }

  /** The method and the target have been taken, with the version still to come. */
  ghost predicate TookWords(b: string, verb: Slice, path: Slice, query: Option<Slice>, words: Words, limit: nat)
    requires words.Words?
  {
    && Sits(b, verb, words.verb, limit)
    && TargetRefers(b, path, query, PathOf(words.target), QueryOf(words.target), limit)
  }

  method TakeWords(req: RequestBuffer) returns (r: Option<nat>, verb: Slice, path: Slice, query: Option<Slice>)
    requires req.position + req.nbytes <= req.buffer.Length == MAX_LENGTH
    modifies req, req.buffer
    ensures r == match ReadWords(old(req.Window())) case BadWords(status) => Some(status) case _ => None
    ensures r == None ==>
      var words := ReadWords(old(req.Window()));
      && Stands(req.buffer[..], req.position, req.nbytes, words.rest, old(Beyond(req)))
      && TookWords(req.buffer[..], verb, path, query, words, req.position)
      && req.position == old(req.position) + |words.verb| + |words.target| + 2
  {
    ghost var w := req.Window();
    verb, path, query := Slice(0, 0), Slice(0, 0), None;
    var ok;
    ok, verb := CutWord(req);
    if !ok {
      return Some(400), verb, path, query;
    }
    ghost var m, b, at := FirstOf(w, ' '), req.buffer[..], req.position;
    assert req.Window() == w[m + 1..];
    assert ReadWords(w) == ReadSecond(w[..m], w[m + 1..]);
    ok, path, query := TakePath(req);
    if !ok {
      return Some(414), verb, path, query;
    }
    ReadsStays(b, req.buffer[..], verb, w[..m], at, req.position);
    r := None;
  }

  /** The version, up to the end of its line. */
  method TakeVersion(req: RequestBuffer) returns (ok: bool, version: Slice)
    requires AtLine(req)
    modifies req, req.buffer
    ensures version.off == old(req.position)
    ensures ok <==> FirstOf(old(req.Window()), '\n') >= 0
    ensures ok ==>
      var w := old(req.Window());
      && old(req.position) <= req.position
      && Stands(req.buffer[..], req.position, req.nbytes, w[FirstOf(w, '\n') + 1..], old(Beyond(req)))
      && req.buffer[..][..old(req.position)] == old(req.buffer[..])[..old(req.position)]
      && Sits(req.buffer[..], version, FirstLine(w), req.position)
  {
    ghost var b, at, n, w := req.buffer[..], req.position, req.nbytes, req.Window();
    var start, len;
    ok, start, len := CutLine(req);
    version := Slice(start, len);
    if ok {
      CutFacts(b, at, n, len, FirstOf(w, '\n'));
    }
  }

  /** Where the version begins, after the method, the target and a space after each. */
  function VersionAt(s: StartLine): nat
    requires s.Start?
  {
    |s.verb| + 1 + |s.path| + (match s.query case None => 0 case Some(q) => 1 + |q|) + 1
  }

  /** The whole request line. */
  method TakeStart(req: RequestBuffer) returns (r: StartStep)
    requires req.position + req.nbytes <= req.buffer.Length == MAX_LENGTH
    modifies req, req.buffer
    ensures LineTaken(old(req.Window()), old(Beyond(req)), old(req.position),
              req.buffer[..], req.position, req.nbytes, r)
  {
    ghost var w := req.Window();
    WordsAreStart(w);
    var status, verb, path, query := TakeWords(req);
    if status.Some? {
      return StartRefused(status.value);
    }
    ghost var b, at, words := req.buffer[..], req.position, ReadWords(w);
    assert req.Window() == words.rest;
    var ok, version := TakeVersion(req);
    if !ok {
      return StartRefused(400);
    }
    ghost var b' := req.buffer[..];
    ReadsStays(b, b', verb, words.verb, at, req.position);
    TargetStays(b, b', path, query, PathOf(words.target), QueryOf(words.target), at, req.position);
    r := Started(StartRefs(verb, path, query, version));
  }

  /** What the request keeps: pointers into the buffer where the meaning has text. */
  datatype ParsedHead =
    | Taken(start: StartRefs, host: Option<Slice>, headers: seq<HeaderRef>, keepalive: bool, contentLength: nat)
    | Refusal(status: nat)
    | Abort
    | Rewrite

  /** Every pointer stands for the text that was meant. */
  ghost predicate Pictures(b: string, p: ParsedHead, r: Request, limit: nat)
    requires p.Taken?
  {
    && StartRefers(b, p.start, Start(r.verb, r.path, r.query, r.version, []), limit)
    && RefersTo(b, Refs(p.headers, p.host, p.keepalive, p.contentLength),
         Notes(r.headers, r.host, r.keepalive, r.contentLength), limit)
  }

  /** A byte of memory, in the buffer or in what comes after it. */
  function ByteAt(b: string, past: nat -> char, i: nat): char {
    if i < |b| then b[i] else past(i - |b|)
  }

  /** The parser's answer is the verdict. */
  ghost predicate Answered(v: Verdict, b: string, r: ParsedHead, limit: nat) {
    match v
    case Accepted(request, _) => r.Taken? && Pictures(b, r, request, limit)
    case Rejected(status) => r == Refusal(status)
    case Aborted => r == Abort
    case HostRewrite => r == Rewrite
  }

  /** The two version bytes are the version's own, if it has eight. */
  predicate VersionIs(s: StartLine, major: char, minor: char) {
    s.Start? && |s.version| >= 8 ==> major == s.version[5] && minor == s.version[7]
  }

  /** The verdict with the version bytes that memory holds behind the start of the version. */
  ghost function DecideIn(b: string, past: nat -> char, version: nat, s: StartLine, notes: Notes, rest: string): Verdict
    requires s.Start?
  {
    Decide(s, notes, rest, ByteAt(b, past, version + 5), ByteAt(b, past, version + 7))
  }

  /** The checks after the headers. */
  method Conclude(buffer: array<char>, past: nat -> char, start: StartRefs, refs: Refs,
                  ghost s: StartLine, ghost notes: Notes, ghost rest: string, ghost limit: nat)
    returns (r: ParsedHead)
    requires buffer.Length == MAX_LENGTH && s.Start? && limit <= buffer.Length
    requires StartRefers(buffer[..], start, s, limit) && RefersTo(buffer[..], refs, notes, limit)
    ensures var v, b := start.version.off, buffer[..];
      VersionIs(s, ByteAt(b, past, v + 5), ByteAt(b, past, v + 7))
    ensures Answered(DecideIn(buffer[..], past, start.version.off, s, notes, rest), buffer[..], r, limit)
  {
    ghost var b := buffer[..];
    var v := start.version.off;
    VersionBytes(b, past, start.version, s.version, limit);
    var major := if v + 5 < buffer.Length then buffer[v + 5] else past(v + 5 - buffer.Length);
    var minor := if v + 7 < buffer.Length then buffer[v + 7] else past(v + 7 - buffer.Length);
    var check := CheckVersion(buffer, major, minor, refs.host != None, start.path, s.path, limit);
    match check {
      case Refusing => r := Refusal(400);
      case Rewriting => r := Rewrite;
      case Taking(alive) =>
        r := Taken(start, refs.host, refs.headers, alive && refs.keepalive, refs.contentLength % SIZE_MODULUS);
    }
    CheckDecides(b, start, refs, s, notes, rest, major, minor, check, r, limit);
  }

  datatype Check = Refusing | Rewriting | Taking(alive: bool)

  /** What the version bytes and the host decide. */
  function CheckOf(major: char, minor: char, host: bool, path: string): Check {
    if major != '1' || (minor == '1' && !host) then Refusing
    else if minor == '2' && Contains(CStr(path), "://") then Rewriting
    else Taking(minor == '1' || minor == '2')
  }

  method CheckVersion(buffer: array<char>, major: char, minor: char, host: bool, path: Slice,
                      ghost text: string, ghost limit: nat)
    returns (check: Check)
    requires limit <= buffer.Length == MAX_LENGTH && Sits(buffer[..], path, text, limit)
    ensures check == CheckOf(major, minor, host, text)
  {
    if major != '1' {
      return Refusing;
    }
    match minor {
      case '1' => check := if host then Taking(true) else Refusing;
      case '2' =>
        var authority := HasAuthority(buffer, path, text, limit);
        check := if authority then Rewriting else Taking(true);
      case _ => check := Taking(false);
    }
  }

  lemma CheckDecides(b: string, start: StartRefs, refs: Refs, s: StartLine, notes: Notes, rest: string,
                     major: char, minor: char, check: Check, r: ParsedHead, limit: nat)
    requires s.Start? && StartRefers(b, start, s, limit) && RefersTo(b, refs, notes, limit)
    requires check == CheckOf(major, minor, refs.host != None, s.path)
    requires match check
      case Refusing => r == Refusal(400)
      case Rewriting => r == Rewrite
      case Taking(alive) =>
        r == Taken(start, refs.host, refs.headers, alive && refs.keepalive, refs.contentLength % SIZE_MODULUS)
    ensures Answered(Decide(s, notes, rest, major, minor), b, r, limit)
  {
  }

  /** strstr on the path. */
  method HasAuthority(buffer: array<char>, path: Slice, ghost text: string, ghost limit: nat) returns (r: bool)
    requires limit <= buffer.Length == MAX_LENGTH && Sits(buffer[..], path, text, limit)
    ensures r == Contains(CStr(text), "://")
  {
    ghost var b := buffer[..];
    StringInPlace(b, path.off, path.len);
    var s := ReadCStr(buffer, path.off);
    assert buffer[path.off..] == b[path.off..];
    r := Contains(s, "://");
  }

  lemma VersionBytes(b: string, past: nat -> char, v: Slice, text: string, limit: nat)
    requires Sits(b, v, text, limit) && limit <= |b| <= MAX_LENGTH
    ensures |text| >= 8 ==> ByteAt(b, past, v.off + 5) == text[5] && ByteAt(b, past, v.off + 7) == text[7]
  {
    if |text| >= 8 {
      assert b[v.off..v.off + v.len][5] == b[v.off + 5] && b[v.off..v.off + v.len][7] == b[v.off + 7];
    }
  }

  /** The verdict when the request line is good. */
  function AfterHeaders(s: StartLine, h: HeaderLines, major: char, minor: char): Verdict
    requires s.Start?
  {
    match h
    case Refused(status) => Rejected(status)
    case Crashed => Aborted
    case Done(notes, rest) => Decide(s, notes, rest, major, minor)
  }

  lemma HeadSteps(known: set<string>, round: int -> int, w: string, beyond: string, major: char, minor: char)
    ensures var s := ReadStart(w); var v := ParseHead(known, round, w, beyond, major, minor);
      && (s.BadStart? ==> v == Rejected(s.status))
      && (s.Start? ==> v == AfterHeaders(s, ReadHeaders(known, round, s.rest, beyond, NO_NOTES), major, minor))
  {
  }

  /** The byte of memory `i` places behind the start of the version, for a head that stood at `at`. */
  ghost function VersionByte(b: string, past: nat -> char, at: nat, s: StartLine, i: nat): char {
    ByteAt(b, past, at + (if s.Start? then VersionAt(s) else 0) + i)
  }

  /** The parser has answered with the verdict on the window `w` that stood at `at`. The bytes
      that decide the version are the sixth and the eighth from its start, as memory holds them
      in the end, and its own whenever it has eight and the header loop came to its blank line. */
  ghost predicate ParsedAs(known: set<string>, round: int -> int, past: nat -> char, w: string, beyond: string, at: nat,
                           b: string, pos: nat, n: nat, r: ParsedHead)
  {
    var s := ReadStart(w);
    var major, minor := VersionByte(b, past, at, s, 5), VersionByte(b, past, at, s, 7);
    var v := ParseHead(known, round, w, beyond, major, minor);
    && Answered(v, b, r, pos)
    && (v.Accepted? ==> LeftAt(b, pos, n, v.rest))
    && (HeadersEnd(known, round, w, beyond) ==> VersionIs(s, major, minor))
  }

  /** The parser stands at `pos`, with exactly `tail` unread. */
  ghost predicate LeftAt(b: string, pos: nat, n: nat, tail: string) {
    |b| == MAX_LENGTH && 0 < pos && pos + n <= |b| && b[pos..pos + n] == tail
  }

  /** The request line is good and the header loop comes to its blank line. */
  predicate HeadersEnd(known: set<string>, round: int -> int, w: string, beyond: string) {
    ReadStart(w).Start? && ReadHeaders(known, round, ReadStart(w).rest, beyond, NO_NOTES).Done?
  }

  lemma RefusedLine(known: set<string>, round: int -> int, past: nat -> char, w: string, beyond: string, at: nat,
                    b: string, pos: nat, n: nat)
    requires ReadStart(w).BadStart?
    ensures ParsedAs(known, round, past, w, beyond, at, b, pos, n, Refusal(ReadStart(w).status))
  {
  }

  /** What the header loop came to, and the checks after it. */
  ghost predicate HeadersTaken(past: nat -> char, s: StartLine, h: HeaderLines, v: nat, b: string, pos: nat, n: nat,
                               r: ParsedHead)
    requires s.Start?
  {
    match h
    case Refused(status) => r == Refusal(status)
    case Crashed => r == Abort
    case Done(notes, rest) =>
      && LeftAt(b, pos, n, rest) && Answered(DecideIn(b, past, v, s, notes, rest), b, r, pos)
      && VersionIs(s, ByteAt(b, past, v + 5), ByteAt(b, past, v + 7))
  }

  lemma TakenLine(known: set<string>, round: int -> int, past: nat -> char, w: string, beyond: string, at: nat,
                  b: string, pos: nat, n: nat, r: ParsedHead, s: StartLine, h: HeaderLines)
    requires ReadStart(w) == s && s.Start? && h == ReadHeaders(known, round, s.rest, beyond, NO_NOTES)
    requires HeadersTaken(past, s, h, at + VersionAt(s), b, pos, n, r)
    ensures ParsedAs(known, round, past, w, beyond, at, b, pos, n, r)
  {
    HeadSteps(known, round, w, beyond, VersionByte(b, past, at, s, 5), VersionByte(b, past, at, s, 7));
  }

  /** The headers and what is checked after them. */
  method FinishHead(req: RequestBuffer, known: set<string>, round: int -> int, past: nat -> char, start: StartRefs,
                    ghost s: StartLine, ghost beyond: string)
    returns (r: ParsedHead)
    requires s.Start? && req.buffer.Length == MAX_LENGTH && StartRefers(req.buffer[..], start, s, req.position)
    requires Stands(req.buffer[..], req.position, req.nbytes, s.rest, beyond)
    modifies req, req.buffer
    ensures HeadersTaken(past, s, ReadHeaders(known, round, s.rest, beyond, NO_NOTES), start.version.off,
              req.buffer[..], req.position, req.nbytes, r)
  {
    ghost var b, at := req.buffer[..], req.position;
    assert req.Window() == s.rest && Beyond(req) == beyond;
    var step; ghost var notes;
    step, notes := ReadHeaderLines(req, known, round);
    match step {
      case HeadersRefused(status) => r := Refusal(status);
      case HeadersCrashed => r := Abort;
      case HeadersDone(refs) =>
        StartStays(b, req.buffer[..], start, s, at, req.position);
        r := Conclude(req.buffer, past, start, refs, s, notes, req.Window(), req.position);
    }
  }

  /** The request line has been taken, and nothing after it. */
  ghost predicate LineTaken(w: string, beyond: string, at: nat, b: string, pos: nat, n: nat, r: StartStep) {
    match ReadStart(w)
    case BadStart(status) => r == StartRefused(status)
    case Start(_, _, _, _, rest) =>
      && r.Started? && Stands(b, pos, n, rest, beyond)
      && StartRefers(b, r.refs, ReadStart(w), pos) && r.refs.version.off == at + VersionAt(ReadStart(w))
  }

  lemma LineIsTaken(w: string, beyond: string, at: nat, b: string, pos: nat, n: nat, start: StartRefs, s: StartLine)
    requires LineTaken(w, beyond, at, b, pos, n, Started(start)) && s == ReadStart(w) && s.Start?
    ensures Stands(b, pos, n, s.rest, beyond) && StartRefers(b, start, s, pos) && start.version.off == at + VersionAt(s)
  {
  }

  /** Parsing a head in place comes to the verdict that the received bytes call for; an accepted
      one leaves its fields in the buffer and exactly the trailing bytes unread. */
  method ParseInPlace(req: RequestBuffer, known: set<string>, round: int -> int, past: nat -> char)
    returns (r: ParsedHead)
    requires req.position + req.nbytes <= req.buffer.Length == MAX_LENGTH
    modifies req, req.buffer
    ensures ParsedAs(known, round, past, old(req.Window()), old(Beyond(req)), old(req.position),
              req.buffer[..], req.position, req.nbytes, r)
  {
    ghost var w, beyond, at := req.Window(), Beyond(req), req.position;
    var started := TakeStart(req);
    if started.StartRefused? {
      RefusedLine(known, round, past, w, beyond, at, req.buffer[..], req.position, req.nbytes);
      r := Refusal(started.status);
    } else {
      r := TakeRest(req, known, round, past, started.refs, w, beyond, at);
    }
  }

  /** All that comes after a good request line. */
  method TakeRest(req: RequestBuffer, known: set<string>, round: int -> int, past: nat -> char, start: StartRefs,
                  ghost w: string, ghost beyond: string, ghost at: nat)
    returns (r: ParsedHead)
    requires req.buffer.Length == MAX_LENGTH && ReadStart(w).Start?
    requires LineTaken(w, beyond, at, req.buffer[..], req.position, req.nbytes, Started(start))
    modifies req, req.buffer
    ensures ParsedAs(known, round, past, w, beyond, at, req.buffer[..], req.position, req.nbytes, r)
  {
    ghost var s := ReadStart(w);
    LineIsTaken(w, beyond, at, req.buffer[..], req.position, req.nbytes, start, s);
    r := FinishHead(req, known, round, past, start, s, beyond);
    TakenLine(known, round, past, w, beyond, at, req.buffer[..], req.position, req.nbytes, r,
      s, ReadHeaders(known, round, s.rest, beyond, NO_NOTES));
  }
}
