/** Serving a connection: cflare_request_process_socket called until it says to stop, with a
    handler that reads every body to its end and then answers. */
module Connections {
  import opened Options
  import opened Numbers
  import opened Heads
  import opened HeadRoundTrip
  import opened HeadFraming
  import opened Sockets
  import opened RequestReader
  import opened RequestParser
  import opened RequestHead
  import opened Contents
  import opened Fates

  // Where the head ends.

  /** The scanner stops at the last byte of a printed request, whatever comes after it. */
  lemma PrintedStops(known: set<string>, round: int -> int, m: Message, more: string)
    requires GoodMessage(known, m) && IsDouble(round)
    ensures |Print(m)| > 0 && StopsAt(Print(m) + more, |Print(m)| - 1)
  {
    var s, c, tail := Print(m) + more, |PrintStart(m)|, PrintHeaders(m.headers, m.endCrlf) + more;
    assert s == PrintStart(m) + tail && s[c..] == tail;
    HeadersAreLeft(known, round, m, more);
    var e := BlankEndIsThere(s, c);
    assert |s[e + 1..]| == |more|;
    StartLineScanned(m, tail);
    BlankStops(s, c);
  }

  lemma HeadersAreLeft(known: set<string>, round: int -> int, m: Message, more: string)
    requires GoodMessage(known, m) && IsDouble(round)
    ensures AfterBlank(PrintHeaders(m.headers, m.endCrlf) + more) == Some(more)
  {
    NotesAreMeant(known, round, m.headers);
    HeadersRead(known, round, m.headers, m.endCrlf, more, [], NO_NOTES);
    HeadersLeave(known, round, PrintHeaders(m.headers, m.endCrlf) + more, [], NO_NOTES);
  }

  lemma StartLineScanned(m: Message, tail: string)
    requires GoodStart(m)
    ensures var s, c := PrintStart(m) + tail, |PrintStart(m)|; Newlines(s[..c]) == 1 && NoStop(s, c)
  {
    var line := m.verb + " " + Target(m) + " " + m.version;
    var s, x := PrintStart(m) + tail, |m.verb|;
    var p := |PrintStart(m)| - 1;
    StartLineIsOne(m, line);
    assert PrintStart(m) == line + Eol(m.crlf);
    assert s[p] == '\n' && s[x] == line[x] == ' ';
    assert forall j | 0 <= j < p :: s[j] == (if j < |line| then line[j] else '\r');
    assert NoStop(s, 0) by {
      assert s[..0] == [];
    }
    LineEnds(s, 0, p, x);
  }

  lemma StartLineIsOne(m: Message, line: string)
    requires GoodStart(m) && line == m.verb + " " + Target(m) + " " + m.version
    ensures Free(line, "\n") && |m.verb| < |line| && line[|m.verb|] == ' '
  {
    var t := Target(m);
    assert Free(t, "\n") by {
      if m.query.Some? {
        assert t == m.path + "?" + m.query.value;
      }
    }
  }

  // What a handler can read off the request.

  /** The bytes of a slice that lies in the buffer. */
  method CopySlice(buffer: array<char>, s: Slice, ghost text: string, ghost limit: nat) returns (t: string)
    ensures s.len < SIZE_MODULUS - 1 && Reads(buffer[..], s, text, limit) ==> t == text
  {
    if s.off + s.len <= buffer.Length {
      assert buffer[..][s.off..s.off + s.len] == buffer[s.off..s.off + s.len];
      t := buffer[s.off..s.off + s.len];
    } else {
      t := [];
    }
  }

  /** No value that a pointer stands for has a length that wrapped around. */
  predicate Short(headers: seq<Field>) {
    forall i | 0 <= i < |headers| :: headers[i].length < SIZE_MODULUS - 1
  }

  method CopyHeaders(buffer: array<char>, refs: Refs, ghost notes: Notes, ghost limit: nat)
    returns (headers: seq<Field>)
    ensures RefersTo(buffer[..], refs, notes, limit) && Short(notes.headers) ==> headers == notes.headers
  {
    headers := [];
    for i := 0 to |refs.headers|
      invariant RefersTo(buffer[..], refs, notes, limit) && Short(notes.headers) ==> headers == notes.headers[..i]
    {
      var h := refs.headers[i];
      ghost var text := if RefersTo(buffer[..], refs, notes, limit) then notes.headers[i].value else [];
      var value := CopySlice(buffer, h.value, text, limit);
      headers := headers + [Field(h.name, value, h.value.len)];
    }
  }

  method CopyTarget(buffer: array<char>, path: Slice, query: Option<Slice>, ghost pathText: string,
                    ghost queryText: Option<string>, ghost limit: nat)
    returns (p: string, q: Option<string>)
    ensures limit <= buffer.Length <= MAX_LENGTH
            && TargetRefers(buffer[..], path, query, pathText, queryText, limit) ==>
      p == pathText && q == queryText
  {
    p := CopySlice(buffer, path, pathText, limit);
    q := None;
    if query.Some? {
      var t := CopySlice(buffer, query.value, if queryText.Some? then queryText.value else [], limit);
      q := Some(t);
    }
  }

  /** All of the request, as the handler finds it in the buffer. */
  method CopyRequest(buffer: array<char>, p: ParsedHead, ghost r: Request, ghost limit: nat) returns (q: Request)
    requires p.Taken?
    ensures q.contentLength == p.contentLength
    ensures limit <= buffer.Length <= MAX_LENGTH && Pictures(buffer[..], p, r, limit) && Short(r.headers) ==> q == r
  {
    ghost var notes := Notes(r.headers, r.host, r.keepalive, r.contentLength);
    var verb := CopySlice(buffer, p.start.verb, r.verb, limit);
    var path, query := CopyTarget(buffer, p.start.path, p.start.query, r.path, r.query, limit);
    var version := CopySlice(buffer, p.start.version, r.version, limit);
    var headers := CopyHeaders(buffer, Refs(p.headers, p.host, p.keepalive, p.contentLength), notes, limit);
    var host := None;
    if p.host.Some? {
      HostIsShort(buffer[..], p, r, limit);
      var t := CopySlice(buffer, p.host.value, if r.host.Some? then r.host.value else [], limit);
      host := Some(t);
    }
    q := Request(verb, path, query, version, headers, host, p.keepalive, p.contentLength);
  }

  lemma HostIsShort(b: string, p: ParsedHead, r: Request, limit: nat)
    requires p.Taken? && p.host.Some?
    ensures Pictures(b, p, r, limit) && Short(r.headers) ==> p.host.value.len < SIZE_MODULUS - 1
  {
    if Pictures(b, p, r, limit) && Short(r.headers) {
      assert IsValue(p.headers, p.host.value);
      var i :| 0 <= i < |p.headers| && p.headers[i].value == p.host.value;
      assert p.headers[i].value.len == r.headers[i].length;
    }
  }

  lemma {:induction false} ValuesArePrinted(headers: seq<Header>, endCrlf: bool, i: nat)
    requires i < |headers|
    ensures |headers[i].value| < |PrintHeaders(headers, endCrlf)|
    decreases |headers|
  {
    if i > 0 {
      ValuesArePrinted(headers[1..], endCrlf, i - 1);
    }
  }

  lemma {:induction false} KeptIsShort(known: set<string>, headers: seq<Header>)
    requires forall i | 0 <= i < |headers| :: |headers[i].value| < SIZE_MODULUS - 1
    ensures Short(Kept(known, headers))
  {
    if headers != [] {
      KeptIsShort(known, headers[..|headers| - 1]);
    }
  }

  /** A request that fits the buffer has no value long enough to wrap around. */
  lemma PrintedIsShort(known: set<string>, m: Message)
    requires GoodMessage(known, m) && |Print(m)| < MAX_LENGTH
    ensures Short(MeantRequest(known, m).headers)
  {
    forall i | 0 <= i < |m.headers| ensures |m.headers[i].value| < SIZE_MODULUS - 1 {
      ValuesArePrinted(m.headers, m.endCrlf, i);
    }
    KeptIsShort(known, m.headers);
  }

  // The body.

  /** For a body that is read, some room will do for the code as written if and only if no more
      than the body has been received with the head. */
  lemma SomeRoomFits(received: nat, unread: nat)
    requires 0 < unread
    ensures (exists room :: 0 < room && BodyFits(Larger, received, unread, room)) <==> received <= unread
  {
    assert BodyFits(Larger, received, unread, if received > 0 then received else 1) <==> received <= unread;
  }

  datatype BodyEnd = Whole | Cut | Astray

  /** Where a handler stands: what has been received, what the network will bring, how much of the
      body is unread, and the bytes to come, if the connection stands and the counters are in range. */
  datatype At = At(received: nat, feed: Feed, unread: nat, ready: bool, coming: string)

  ghost function Here(req: RequestBuffer, socket: Socket): At
    reads req, req.buffer, socket
  {
    var inRange := req.position + req.nbytes <= req.buffer.Length;
    At(req.nbytes, socket.State(), req.unread, socket.connected && inRange, if inRange then Coming(req, socket) else [])
  }

  /** `taken` has been taken off the bytes to come and off the body, and nothing else. */
  predicate HasTaken(was: At, now: At, taken: string) {
    now.ready && was.coming == taken + now.coming && was.unread == |taken| + now.unread
  }

  /** On a network that flows: when a chunk of `len` bytes is had, and what it leaves. */
  predicate ChunkEnds(end: BodyEnd, was: At, now: At, len: nat, size: nat) {
    && Flowing(now.feed.receive) && (end == Whole <==> len <= was.received || Size(was.feed) > 0)
    && (end == Whole ==>
          size == ChunkRead(was.received, was.feed, len)
          && Left(now.received, now.feed) == ChunkLeft(was.received, was.feed, len))
  }

  predicate ChunkComes(choice: Choice, room: nat, was: At, now: At, end: BodyEnd, chunk: string) {
    && (end == Astray <==> !ChunkFits(choice, was.received, was.unread, room, true))
    && (end == Whole ==> HasTaken(was, now, chunk) && 0 < |chunk| && (choice == Larger ==> now.received == 0))
    && (end != Astray && Flowing(was.feed.receive) ==> ChunkEnds(end, was, now, Least(was.unread, room), |chunk|))
  }

  /** One chunk, with the room that the handler offers for it. */
  method BodyTurn(req: RequestBuffer, socket: Socket, choice: Choice, room: nat) returns (end: BodyEnd, chunk: string)
    requires req.position + req.nbytes <= req.buffer.Length == MAX_LENGTH && socket.connected
    requires 0 < req.unread < SIZE_MODULUS && 0 < room < SIZE_MODULUS
    modifies req`position, req`nbytes, req`unread
    modifies socket`connected, socket`requeue, socket`network, socket`receive
    ensures ChunkComes(choice, room, old(Here(req, socket)), Here(req, socket), end, chunk)
  {
    var out := new char[room];
    var fits := ChunkFits(choice, req.nbytes, req.unread, room, true);
    var r := ContentChunk(req, socket, out, choice);
    if !fits {
      return Astray, [];
    }
    chunk := out[..r.read];
    end := if r.ok then Whole else Cut;
  }

  /** On a network that flows: when a body is had to its end, and what it leaves. */
  predicate BodyEnds(end: BodyEnd, was: At, now: At, room: nat -> nat, i: nat) {
    && Flowing(now.feed.receive) && (end == Whole <==> was.unread <= was.received + Size(was.feed))
    && (end == Whole ==> Left(now.received, now.feed) == BodyLeft(was.received, was.feed, was.unread, room, i))
  }

  /** What reading a body, with the calls from the `i`th on, comes to. It goes astray if and only
      if the first call cannot do what it is for; from there on the counters are wrong. */
  predicate BodyComes(choice: Choice, room: nat -> nat, i: nat, was: At, now: At, end: BodyEnd, body: string) {
    && (end == Astray <==> !BodyFits(choice, was.received, was.unread, room(i)))
    && (end == Whole ==> HasTaken(was, now, body) && now.unread == 0)
    && (end != Astray && Flowing(was.feed.receive) ==> BodyEnds(end, was, now, room, i))
  }

  /** A handler that reads a body to its end, with any room for each call, from the `i`th on. */
  method ReadBody(req: RequestBuffer, socket: Socket, choice: Choice, room: nat -> nat, i: nat)
    returns (end: BodyEnd, body: string)
    requires req.position + req.nbytes <= req.buffer.Length == MAX_LENGTH && socket.connected
    requires req.unread < SIZE_MODULUS && GoodRooms(room)
    modifies req`position, req`nbytes, req`unread
    modifies socket`connected, socket`requeue, socket`network, socket`receive
    ensures BodyComes(choice, room, i, old(Here(req, socket)), Here(req, socket), end, body)
    decreases req.unread
  {
    ghost var was := Here(req, socket);
    if req.unread == 0 {
      NoBody(choice, room, i, was);
      return Whole, [];
    }
    assert room(i) > 0 && room(i + 1) > 0;
    var chunk;
    end, chunk := BodyTurn(req, socket, choice, room(i));
    ghost var now := Here(req, socket);
    if end == Whole {
      end, body := ReadBody(req, socket, choice, room, i + 1);
      BodyGoesOn(choice, room, i, was, now, Here(req, socket), chunk, end, body);
      body := chunk + body;
    } else {
      BodyStops(choice, room, i, was, now, end, chunk);
      body := chunk;
    }
  }

  lemma NoBody(choice: Choice, room: nat -> nat, i: nat, was: At)
    requires was.ready && was.unread == 0
    ensures BodyComes(choice, room, i, was, was, Whole, [])
  {
    assert [] + was.coming == was.coming;
  }

  lemma BodyGoesOn(choice: Choice, room: nat -> nat, i: nat, was: At, now: At, later: At, chunk: string,
                   end: BodyEnd, body: string)
    requires was.unread > 0 && room(i + 1) > 0 && ChunkComes(choice, room(i), was, now, Whole, chunk)
    requires BodyComes(choice, room, i + 1, now, later, end, body)
    ensures BodyComes(choice, room, i, was, later, end, chunk + body)
  {
    Regrouped(chunk, body, later.coming);
  }

  lemma BodyStops(choice: Choice, room: nat -> nat, i: nat, was: At, now: At, end: BodyEnd, chunk: string)
    requires was.unread > 0 && end != Whole && ChunkComes(choice, room(i), was, now, end, chunk)
    ensures BodyComes(choice, room, i, was, now, end, chunk)
  {
  }

  // One request.

  datatype Outcome = Served(request: Request, body: string, goOn: bool) | Closed(why: Why)

  datatype Head = Head(request: Request) | NoHead(why: Why)

  /** The bytes to come are a good request's head, and then `tail`. */
  ghost predicate HeadIsSent(known: set<string>, round: int -> int, p: string, m: Message, tail: string) {
    IsDouble(round) && GoodMessage(known, m) && p == Print(m) + tail
  }

  /** Whatever lies beyond the window, it is parsed as this request and leaves `more`. */
  ghost predicate ParsesAs(known: set<string>, round: int -> int, w: string, r: Request, more: string) {
    forall beyond, major, minor :: VersionIs(ReadStart(w), major, minor) ==>
      ParseHead(known, round, w, beyond, major, minor) == Accepted(r, more)
  }

  lemma PrintedParsesAs(known: set<string>, round: int -> int, m: Message, more: string)
    requires GoodMessage(known, m) && IsDouble(round)
    ensures ParsesAs(known, round, Print(m) + more, MeantRequest(known, m), more)
  {
    var w := Print(m) + more;
    VersionIsRead(m, more, w);
    forall beyond, major, minor | VersionIs(ReadStart(w), major, minor)
      ensures ParseHead(known, round, w, beyond, major, minor) == Accepted(MeantRequest(known, m), more)
    {
      PrintedRequestParses(known, round, m, more, beyond);
    }
  }

  lemma VersionIsRead(m: Message, more: string, w: string)
    requires GoodStart(m) && w == Print(m) + more
    ensures ReadStart(w).Start? && ReadStart(w).version == m.version
  {
    var tail := PrintHeaders(m.headers, m.endCrlf) + more;
    assert w == PrintStart(m) + tail;
    StartReads(m, tail);
  }

  /** The window holds the head, when it holds the byte where the scanner stopped. */
  lemma HeadInWindow(known: set<string>, round: int -> int, p: string, m: Message, tail: string, n: nat, stop: nat)
    returns (more: string)
    requires HeadIsSent(known, round, p, m, tail) && StopsAt(p, stop) && stop < n <= |p| && n < MAX_LENGTH
    ensures more + p[n..] == tail && ParsesAs(known, round, p[..n], MeantRequest(known, m), more)
    ensures Short(MeantRequest(known, m).headers)
  {
    PrintedStops(known, round, m, tail);
    StopIsUnique(p, stop, |Print(m)| - 1);
    more := tail[..n - |Print(m)|];
    assert p[..n] == Print(m) + more;
    PrintedParsesAs(known, round, m, more);
    PrintedIsShort(known, m);
  }

  /** Reading a head off the socket and parsing it. On a network that flows, a head that was sent
      is had, unless the reads made for it fill the buffer. */
  method TakeHead(socket: Socket, req: RequestBuffer, known: set<string>, round: int -> int, past: nat -> char,
                  ghost m: Message, ghost tail: string)
    returns (r: Head)
    requires req.buffer.Length == MAX_LENGTH && socket.connected
    modifies socket`connected, socket`requeue, socket`network, socket`receive, req, req.buffer
    ensures r.Head? ==>
      && socket.connected && 0 < req.position && req.position + req.nbytes <= req.buffer.Length
      && req.unread == r.request.contentLength < SIZE_MODULUS
      && socket.requeue == [] && |Coming(req, socket)| < |old(socket.Pending())|
    ensures Flowing(old(socket.receive)) ==> Flowing(socket.receive)
    ensures old(socket.Pending()) == [] ==> r == NoHead(ReadFailed)
    ensures r.Head? && HeadIsSent(known, round, old(socket.Pending()), m, tail) ==>
      r.request == MeantRequest(known, m) && Coming(req, socket) == tail
    ensures Flowing(old(socket.receive)) && HeadIsSent(known, round, old(socket.Pending()), m, tail) ==>
      HeadFate(r, Fetch(old(socket.State()), 0, HeadStop(m)), |Print(m)|, req.nbytes, socket.State())
  {
    ghost var p, f := socket.Pending(), socket.State();
    var scan := ReadHead(socket, req.buffer, HeadStop(m));
    if Flowing(f.receive) && HeadIsSent(known, round, p, m, tail) {
      SentStops(known, round, p, m, tail, f);
    }
    match scan {
      case ReadError => r := NoHead(ReadFailed);
      case TooLong => r := NoHead(HeadTooLong);
      case GotHead(nbytes, stop) =>
        req.position, req.nbytes := 0, nbytes;
        assert req.Window() == p[..nbytes];
        r := ParseReceived(req, known, round, past, p, stop, m, tail);
    }
  }

  /** What `d`, the reads made for a head of `h` bytes, come to. */
  ghost predicate HeadFate(r: Head, d: Fetched, h: nat, ahead: nat, f: Feed) {
    && (r == NoHead(HeadTooLong) <==> d.n >= MAX_LENGTH)
    && (r.Head? <==> d.n < MAX_LENGTH)
    && (r.Head? ==> d.n == h + ahead && f == d.feed)
  }

  lemma SentStops(known: set<string>, round: int -> int, p: string, m: Message, tail: string, f: Feed)
    requires HeadIsSent(known, round, p, m, tail) && Flowing(f.receive) && Size(f) == |p|
    ensures StopIs(p, HeadStop(m)) && HeadStop(m) + 1 == |Print(m)|
    ensures var d := Fetch(f, 0, HeadStop(m)); d.n <= MAX_LENGTH && (HeadStop(m) < d.n || d.n == MAX_LENGTH)
  {
    PrintedStops(known, round, m, tail);
    FetchReaches(f, 0, HeadStop(m));
  }

  lemma AcceptedShape(known: set<string>, round: int -> int, w: string, beyond: string, major: char, minor: char)
    requires ParseHead(known, round, w, beyond, major, minor).Accepted?
    ensures var v := ParseHead(known, round, w, beyond, major, minor);
      v.request.contentLength < SIZE_MODULUS && |v.rest| < |w|
  {
    AcceptedRest(known, round, w, beyond, major, minor);
    LeftIsShorter(known, round, w, beyond);
    HeadSteps(known, round, w, beyond, major, minor);
  }

  lemma LeftIsShorter(known: set<string>, round: int -> int, w: string, beyond: string)
    requires ReadStart(w).Start? && ReadHeaders(known, round, ReadStart(w).rest, beyond, NO_NOTES).Done?
    ensures |ReadHeaders(known, round, ReadStart(w).rest, beyond, NO_NOTES).rest| < |w|
  {
    var b, c := StartEnds(w);
    HeadersLeave(known, round, ReadStart(w).rest, beyond, NO_NOTES);
    var e := BlankEndIsThere(w, c);
  }

  lemma HeadEnds(known: set<string>, round: int -> int, w: string, beyond: string, r: Request, more: string)
    requires ParsesAs(known, round, w, r, more)
    ensures HeadersEnd(known, round, w, beyond)
  {
    var s := ReadStart(w);
    var major, minor := SomeByte(s, 5), SomeByte(s, 7);
    assert VersionIs(s, major, minor);
    assert ParseHead(known, round, w, beyond, major, minor) == Accepted(r, more);
    AcceptedRest(known, round, w, beyond, major, minor);
  }

  ghost function SomeByte(s: StartLine, i: nat): char
    requires i < 8
  {
    if s.Start? && |s.version| >= 8 then s.version[i] else '0'
  }

  /** What is known of a parsed window that holds a sent request's head. */
  lemma SentIsParsed(known: set<string>, round: int -> int, past: nat -> char, p: string, m: Message, tail: string,
                     n: nat, stop: nat, beyond: string, b: string, pos: nat, n': nat, r: ParsedHead)
    requires StopsAt(p, stop) && stop < n <= |p| && n < MAX_LENGTH
    requires HeadIsSent(known, round, p, m, tail)
    requires ParsedAs(known, round, past, p[..n], beyond, 0, b, pos, n', r)
    ensures r.Taken? && pos <= |b| && Pictures(b, r, MeantRequest(known, m), pos)
    ensures Short(MeantRequest(known, m).headers)
    ensures pos + n' <= |b| && b[pos..pos + n'] + p[n..] == tail
  {
    var more := HeadInWindow(known, round, p, m, tail, n, stop);
    HeadEnds(known, round, p[..n], beyond, MeantRequest(known, m), more);
  }

  /** A parsed head that is taken is an accepted one. */
  lemma TakenIsAccepted(known: set<string>, round: int -> int, past: nat -> char, w: string, beyond: string,
                        b: string, pos: nat, n: nat, r: ParsedHead)
    requires ParsedAs(known, round, past, w, beyond, 0, b, pos, n, r) && r.Taken?
    ensures 0 < pos && pos + n <= |b| && n < |w| && r.contentLength < SIZE_MODULUS
  {
    var s := ReadStart(w);
    AcceptedShape(known, round, w, beyond, VersionByte(b, past, 0, s, 5), VersionByte(b, past, 0, s, 7));
  }

  /** Parsing the head that was received, and copying the request. */
  method ParseReceived(req: RequestBuffer, known: set<string>, round: int -> int, past: nat -> char,
                       ghost p: string, ghost stop: nat, ghost m: Message, ghost tail: string)
    returns (r: Head)
    requires req.buffer.Length == MAX_LENGTH && req.position == 0 && req.nbytes < MAX_LENGTH
    requires req.nbytes <= |p| && req.Window() == p[..req.nbytes] && StopsAt(p, stop) && stop < req.nbytes
    modifies req, req.buffer
    ensures r.Head? ==>
      0 < req.position && req.position + req.nbytes <= req.buffer.Length && req.nbytes < old(req.nbytes)
    ensures r.Head? ==> req.unread == r.request.contentLength < SIZE_MODULUS
    ensures HeadIsSent(known, round, p, m, tail) ==>
      r == Head(MeantRequest(known, m)) && req.Window() + p[old(req.nbytes)..] == tail
  {
    var parsed; ghost var meant, left;
    parsed, meant, left := ParseWindow(req, known, round, past, p, stop, m, tail);
    match parsed {
      case Refusal(status) => r := NoHead(BadHead(status));
      case Abort => r := NoHead(HeadAborts);
      case Rewrite => r := NoHead(HostIsRewritten);
      case Taken(_, _, _, _, _) => r := HandOver(req, parsed, meant);
    }
  }

  /** Parsing it, and what it comes to for a head that was sent. */
  method ParseWindow(req: RequestBuffer, known: set<string>, round: int -> int, past: nat -> char,
                     ghost p: string, ghost stop: nat, ghost m: Message, ghost tail: string)
    returns (r: ParsedHead, ghost meant: Request, ghost left: string)
    requires req.buffer.Length == MAX_LENGTH && req.position == 0 && req.nbytes < MAX_LENGTH
    requires req.nbytes <= |p| && req.Window() == p[..req.nbytes] && StopsAt(p, stop) && stop < req.nbytes
    modifies req, req.buffer
    ensures r.Taken? ==>
      && 0 < req.position && req.position + req.nbytes <= req.buffer.Length && req.nbytes < old(req.nbytes)
      && r.contentLength < SIZE_MODULUS && req.Window() == left
    ensures HeadIsSent(known, round, p, m, tail) ==>
      && r.Taken? && Pictures(req.buffer[..], r, meant, req.position) && Short(meant.headers)
      && meant == MeantRequest(known, m) && left + p[old(req.nbytes)..] == tail
  {
    ghost var n, beyond := req.nbytes, Beyond(req);
    r := ParseInPlace(req, known, round, past);
    meant := MeantOr(known, m);
    left := IfSent(known, round, past, p, m, tail, n, stop, beyond, req.buffer[..], req.position, req.nbytes, r);
  }

  ghost function MeantOr(known: set<string>, m: Message): Request {
    if GoodMessage(known, m) then MeantRequest(known, m) else Request([], [], None, [], [], None, false, 0)
  }

  lemma IfSent(known: set<string>, round: int -> int, past: nat -> char, p: string, m: Message, tail: string,
               n: nat, stop: nat, beyond: string, b: string, pos: nat, n': nat, r: ParsedHead)
    returns (left: string)
    requires StopsAt(p, stop) && stop < n <= |p| && n < MAX_LENGTH
    requires ParsedAs(known, round, past, p[..n], beyond, 0, b, pos, n', r)
    ensures r.Taken? ==>
      0 < pos && pos + n' <= |b| && n' < n && r.contentLength < SIZE_MODULUS && left == b[pos..pos + n']
    ensures HeadIsSent(known, round, p, m, tail) ==>
      && r.Taken? && Pictures(b, r, MeantOr(known, m), pos) && Short(MeantOr(known, m).headers)
      && MeantOr(known, m) == MeantRequest(known, m) && left + p[n..] == tail
  {
    left := if pos + n' <= |b| then b[pos..pos + n'] else [];
    if r.Taken? {
      TakenIsAccepted(known, round, past, p[..n], beyond, b, pos, n', r);
    }
    if HeadIsSent(known, round, p, m, tail) {
      SentIsParsed(known, round, past, p, m, tail, n, stop, beyond, b, pos, n', r);
    }
  }

  /** What the handler is given of an accepted head. */
  method HandOver(req: RequestBuffer, parsed: ParsedHead, ghost meant: Request) returns (r: Head)
    requires parsed.Taken? && req.position + req.nbytes <= req.buffer.Length == MAX_LENGTH
    modifies req`unread
    ensures req.Window() == old(req.Window())
    ensures r.Head? && r.request.contentLength == req.unread == parsed.contentLength
    ensures Pictures(req.buffer[..], parsed, meant, req.position) && Short(meant.headers) ==> r.request == meant
  {
    req.unread := parsed.contentLength;
    var q := CopyRequest(req.buffer, parsed, meant, req.position);
    r := Head(q);
  }

  /** Unless the handler returned another number, a connection that goes on keeps what has been
      read ahead. */
  predicate Keeps(result: Option<int>) {
    result.Some? ==> result.value == 0
  }

  ghost predicate SentNext(known: set<string>, round: int -> int, p: string, s: Sent, rest: string) {
    IsDouble(round) && GoodSent(known, s) && p == Print(s.message) + (s.body + rest)
  }

  /** Handling one request. A good one is handed over whole, and the stream is left standing at
      the bytes after its body, but for those that were read ahead and not pushed back. On a
      network that flows it is served exactly when its head's reads do not fill the buffer and its
      body fits what they have brought. */
  method ProcessSocket(socket: Socket, req: RequestBuffer, choice: Choice, known: set<string>, round: int -> int,
                       past: nat -> char, room: nat -> nat, result: Option<int>, ghost s: Sent, ghost rest: string)
    returns (r: Outcome, ghost lost: string)
    requires req.buffer.Length == MAX_LENGTH && socket.connected && GoodRooms(room)
    modifies socket`connected, socket`requeue, socket`network, socket`receive, req, req.buffer
    ensures r.Served? ==> socket.connected && |socket.Pending()| < |old(socket.Pending())|
    ensures Flowing(old(socket.receive)) ==> Flowing(socket.receive) || r == Closed(BodyOutOfStep)
    ensures old(socket.Pending()) == [] ==> r == Closed(ReadFailed)
    ensures r.Served? && SentNext(known, round, old(socket.Pending()), s, rest) ==>
      && r.request == MeantRequest(known, s.message) && r.body == s.body && r.goOn == r.request.keepalive
      && rest == lost + socket.Pending()
      && (if r.goOn && (result == None || result == Some(0)) then lost == [] else lost == LeftOver(req))
    ensures Flowing(old(socket.receive)) && SentNext(known, round, old(socket.Pending()), s, rest) ==>
      && Handled(r, HandlingOf(choice, s, old(socket.State()), room))
      && (r.Served? && r.goOn && Keeps(result) ==> socket.State() == NextFeed(s, old(socket.State()), room))
  {
    lost := [];
    ghost var p, f := socket.Pending(), socket.State();
    var h := TakeHead(socket, req, known, round, past, s.message, s.body + rest);
    HeadIsHandled(choice, s, f, room, h, req.nbytes, socket.State());
    if h.NoHead? {
      r := Closed(h.why);
    } else {
      ghost var coming := Coming(req, socket);
      r, lost := ServeBody(socket, req, choice, h.request, room, result);
      if SentNext(known, round, p, s, rest) {
        BodyIsSent(s, rest, r, lost, coming, socket.Pending());
      }
    }
  }

  /** What the reads for a head settle. */
  lemma HeadIsHandled(choice: Choice, s: Sent, f: Feed, room: nat -> nat, h: Head, ahead: nat, g: Feed)
    ensures HeadFate(h, HeadFetch(s, f), |Print(s.message)|, ahead, g) ==>
      var handling := HandlingOf(choice, s, f, room);
      && (h.NoHead? ==> h.why == HeadTooLong && handling == HeadFills)
      && (h.Head? ==>
            handling == (if BodyFits(choice, ahead, |s.body|, room(0)) then Serves else OutOfStep)
            && NextFeed(s, f, room) == FeedAfter(ahead, g, |s.body|, room))
  {
  }

  /** A body taken off `body + rest`, of the right length, is that body. */
  lemma BodyIsSent(s: Sent, rest: string, r: Outcome, lost: string, coming: string, pending: string)
    ensures coming == s.body + rest && r.Served? && |r.body| == |s.body| && coming == r.body + (lost + pending) ==>
      r.body == s.body && rest == lost + pending
  {
    if r.Served? && |r.body| == |s.body| {
      SamePrefix(s.body, rest, r.body, lost + pending);
    }
  }

  /** The handler's part: reading the body, and pushing back what was read ahead. */
  method ServeBody(socket: Socket, req: RequestBuffer, choice: Choice, request: Request, room: nat -> nat,
                   result: Option<int>)
    returns (r: Outcome, ghost lost: string)
    requires req.position + req.nbytes <= req.buffer.Length == MAX_LENGTH && socket.connected
    requires req.unread == request.contentLength < SIZE_MODULUS && GoodRooms(room)
    modifies req`position, req`nbytes, req`unread
    modifies socket`connected, socket`requeue, socket`network, socket`receive
    ensures r == Closed(BodyOutOfStep) <==> !BodyFits(choice, old(req.nbytes), old(req.unread), room(0))
    ensures r.Closed? ==> r.why == BodyOutOfStep || r.why == BodyCut
    ensures r.Served? ==>
      && socket.connected && r.request == request && r.goOn == request.keepalive && |r.body| == request.contentLength
      && old(Coming(req, socket)) == r.body + (lost + socket.Pending())
      && (if r.goOn && (result == None || result == Some(0)) then lost == [] else lost == LeftOver(req))
    ensures Flowing(old(socket.receive)) && r != Closed(BodyOutOfStep) ==>
      && Flowing(socket.receive) && (r.Served? <==> old(req.unread) <= old(req.nbytes) + Size(old(socket.State())))
      && (r.Served? && r.goOn && Keeps(result) ==>
            socket.State() == FeedAfter(old(req.nbytes), old(socket.State()), old(req.unread), room))
  {
    lost := [];
    var end, body := ReadBody(req, socket, choice, room, 0);
    match end {
      case Astray => r := Closed(BodyOutOfStep);
      case Cut => r := Closed(BodyCut);
      case Whole =>
        var goOn := request.keepalive && req.unread == 0;
        lost := PushBack(socket, req, goOn && Keeps(result));
        r := Served(request, body, goOn);
    }
  }

  /** The outcome that handling comes to. */
  ghost predicate Handled(r: Outcome, h: Handling) {
    match h
    case Serves => r.Served?
    case HeadFills => r == Closed(HeadTooLong)
    case OutOfStep => r == Closed(BodyOutOfStep)
  }

  lemma SamePrefix(a: string, b: string, c: string, d: string)
    requires |a| == |c|
    ensures a + b == c + d ==> a == c && b == d
  {
    assert (a + b)[..|a|] == a && (a + b)[|a|..] == b;
    assert (c + d)[..|c|] == c && (c + d)[|c|..] == d;
  }

  /** What has been read ahead, if the counters are in range. */
  ghost function LeftOver(req: RequestBuffer): string
    reads req, req.buffer
  {
    if req.position + req.nbytes <= req.buffer.Length then req.Window() else []
  }

  /** What has been read ahead is pushed back, or is lost. */
  method PushBack(socket: Socket, req: RequestBuffer, keep: bool) returns (ghost lost: string)
    requires req.position + req.nbytes <= req.buffer.Length
    modifies socket`requeue
    ensures old(Coming(req, socket)) == lost + socket.Pending() && lost == if keep then [] else LeftOver(req)
    ensures keep ==> var f := old(socket.State()); socket.State() == Feed(req.nbytes + f.pushed, f.network, f.receive)
  {
    ghost var w, p := req.Window(), socket.Pending();
    assert [] + (w + p) == w + p && (w == [] ==> w + p == p);
    lost := if keep then [] else w;
    if keep && req.nbytes > 0 {
      socket.Requeue(req.buffer[req.position..req.position + req.nbytes]);
    }
  }

  // A whole connection.

  datatype Delivery = Delivery(request: Request, body: string)

  function Delivered(known: set<string>, s: Sent): Delivery
    requires GoodSent(known, s)
  {
    Delivery(MeantRequest(known, s.message), s.body)
  }

  /** What has been delivered is what was sent, as far as it goes. */
  ghost predicate IsPrefix(known: set<string>, sents: seq<Sent>, deliveries: seq<Delivery>)
    requires AllGood(known, sents)
  {
    |deliveries| <= |sents| && forall i | 0 <= i < |deliveries| :: deliveries[i] == Delivered(known, sents[i])
  }

  /** The peer has sent these requests and nothing else. */
  ghost predicate AllSent(known: set<string>, round: int -> int, p: string, sents: seq<Sent>) {
    IsDouble(round) && AllGood(known, sents) && p == Stream(sents)
  }

  /** The loop of a worker. However the network splits the bytes, and even if it fails, what is
      handed over is the requests that were sent, in order and each with its body. If it flows, the
      connection meets exactly the fate that the reads and the handler's room have for it. */
  method Serve(socket: Socket, req: RequestBuffer, choice: Choice, known: set<string>, round: int -> int,
               past: nat -> char, room: nat -> nat, result: Option<int>, ghost sents: seq<Sent>)
    returns (deliveries: seq<Delivery>, end: End)
    requires req.buffer.Length == MAX_LENGTH && socket.connected && GoodRooms(room)
    modifies socket`connected, socket`requeue, socket`network, socket`receive, req, req.buffer
    ensures Keeps(result) && AllSent(known, round, old(socket.Pending()), sents) ==>
      && IsPrefix(known, sents, deliveries)
      && (Flowing(old(socket.receive)) ==>
            Fate(|deliveries|, end) == FateOf(choice, known, sents, old(socket.State()), room))
  {
    deliveries := [];
    ghost var good := Keeps(result) && AllSent(known, round, socket.Pending(), sents);
    ghost var flows := Flowing(socket.receive);
    ghost var done: seq<Sent>, left := [], sents;
    ghost var total := if good then FateOf(choice, known, sents, socket.State(), room) else Fate(0, Finished);
    while true
      invariant socket.connected
      invariant good ==> sents == done + left
      invariant good ==>
        Progress(choice, known, done, left, room, deliveries, socket.Pending(), socket.State(), flows, total)
      decreases |socket.Pending()|
    {
      ghost var p, g := socket.Pending(), socket.State();
      ghost var s, more := FirstSent(left);
      var r, lost := ProcessSocket(socket, req, choice, known, round, past, room, result, s, Stream(more));
      match r {
        case Closed(why) =>
          if good {
            LastStep(choice, known, done, left, s, more, room, deliveries, p, g, flows, total, r);
          }
          return deliveries, Broke(why);
        case Served(request, body, goOn) =>
          if good {
            assert lost == [] && goOn ==> lost + socket.Pending() == socket.Pending();
            NextStep(choice, known, done, left, s, more, room, deliveries, p, g, flows, total, r, socket.State());
          }
          deliveries, done, left := deliveries + [Delivery(request, body)], done + [s], more;
          if !goOn {
            return deliveries, Finished;
          }
      }
    }
  }

  lemma LastStep(choice: Choice, known: set<string>, done: seq<Sent>, left: seq<Sent>, s: Sent, more: seq<Sent>,
                 room: nat -> nat, deliveries: seq<Delivery>, p: string, g: Feed, flows: bool, total: Fate, r: Outcome)
    requires Progress(choice, known, done, left, room, deliveries, p, g, flows, total) && r.Closed?
    requires left != [] ==> left == [s] + more && (flows ==> Handled(r, HandlingOf(choice, s, g, room)))
    requires p == [] ==> r == Closed(ReadFailed)
    ensures AllGood(known, done + left) && IsPrefix(known, done + left, deliveries)
    ensures flows ==> Fate(|deliveries|, Broke(r.why)) == total
  {
    Prefixed(known, done, left, deliveries);
    FateStep(choice, known, left, s, more, g, room);
  }

  lemma NextStep(choice: Choice, known: set<string>, done: seq<Sent>, left: seq<Sent>, s: Sent, more: seq<Sent>,
                 room: nat -> nat, deliveries: seq<Delivery>, p: string, g: Feed, flows: bool, total: Fate,
                 r: Outcome, g': Feed)
    requires Progress(choice, known, done, left, room, deliveries, p, g, flows, total) && r.Served?
    requires left != [] && left == [s] + more && (flows ==> Handled(r, HandlingOf(choice, s, g, room)))
    requires GoodSent(known, s) && Delivery(r.request, r.body) == Delivered(known, s) && r.goOn == KeptAlive(known, s)
    requires r.goOn && flows ==> g' == NextFeed(s, g, room) && Flowing(g'.receive)
    ensures var now := deliveries + [Delivery(r.request, r.body)];
      && done + left == done + [s] + more
      && (r.goOn ==> Progress(choice, known, done + [s], more, room, now, Stream(more), g', flows, total))
      && (!r.goOn ==>
            && AllGood(known, done + left) && IsPrefix(known, done + left, now)
            && (flows ==> Fate(|now|, Finished) == total))
  {
    FateStep(choice, known, left, s, more, g, room);
    Reassociated(done, [s], more);
    var now := deliveries + [Delivery(r.request, r.body)];
    DoneIsExtended(known, done, s, deliveries, Delivery(r.request, r.body));
    if !r.goOn {
      Prefixed(known, done + [s], more, now);
    }
  }

  lemma Reassociated<T>(a: seq<T>, b: seq<T>, c: seq<T>)
    ensures a + (b + c) == a + b + c
  {
  }

  lemma DoneIsExtended(known: set<string>, done: seq<Sent>, s: Sent, deliveries: seq<Delivery>, d: Delivery)
    requires AllDone(known, done, deliveries) && IsDone(known, s, d)
    ensures AllDone(known, done + [s], deliveries + [d])
  {
    forall i | 0 <= i < |done| + 1 ensures IsDone(known, (done + [s])[i], (deliveries + [d])[i]) {
      if i < |done| {
        assert (done + [s])[i] == done[i] && (deliveries + [d])[i] == deliveries[i];
      }
    }
  }

  /** The requests done are delivered, and the fate of those left is what is to come. */
  ghost predicate Progress(choice: Choice, known: set<string>, done: seq<Sent>, left: seq<Sent>, room: nat -> nat,
                           deliveries: seq<Delivery>, p: string, g: Feed, flows: bool, total: Fate)
  {
    && AllGood(known, left) && AllDone(known, done, deliveries) && p == Stream(left)
    && (flows ==> Flowing(g.receive) && total == Plus(|done|, FateOf(choice, known, left, g, room)))
  }

  ghost predicate AllDone(known: set<string>, done: seq<Sent>, deliveries: seq<Delivery>) {
    |deliveries| == |done| && forall i | 0 <= i < |done| :: IsDone(known, done[i], deliveries[i])
  }

  predicate IsDone(known: set<string>, s: Sent, d: Delivery) {
    GoodSent(known, s) && d == Delivered(known, s)
  }

  lemma Prefixed(known: set<string>, done: seq<Sent>, left: seq<Sent>, deliveries: seq<Delivery>)
    ensures AllDone(known, done, deliveries) && AllGood(known, left) ==>
      AllGood(known, done + left) && IsPrefix(known, done + left, deliveries)
  {
  }

  function Plus(k: nat, fate: Fate): Fate {
    Fate(k + fate.served, fate.end)
  }

  /** The next request, if there is one, and the ones after it. */
  lemma FirstSent(left: seq<Sent>) returns (s: Sent, more: seq<Sent>)
    ensures left != [] ==> left == [s] + more && Stream(left) == Print(s.message) + (s.body + Stream(more))
    ensures left == [] ==> Stream(left) == []
  {
    s, more := Sent(TINY, []), [];
    if left != [] {
      s, more := left[0], left[1..];
      Regrouped(Print(s.message), s.body, Stream(more));
    }
  }

  /** What the fate of the requests left depends on. */
  lemma FateStep(choice: Choice, known: set<string>, left: seq<Sent>, s: Sent, more: seq<Sent>, g: Feed,
                 room: nat -> nat)
    requires AllGood(known, left) && (left != [] ==> left == [s] + more)
    ensures left == [] ==> FateOf(choice, known, left, g, room) == Fate(0, Broke(ReadFailed))
    ensures left != [] ==> FirstFate(choice, known, left, s, more, g, room)
  {
    if left != [] {
      assert left[0] == s && left[1..] == more;
    }
  }

  ghost predicate FirstFate(choice: Choice, known: set<string>, left: seq<Sent>, s: Sent, more: seq<Sent>, g: Feed,
                            room: nat -> nat)
    requires AllGood(known, left)
  {
    var fate, h := FateOf(choice, known, left, g, room), HandlingOf(choice, s, g, room);
    && AllGood(known, more) && GoodSent(known, s)
    && (h == HeadFills ==> fate == Fate(0, Broke(HeadTooLong)))
    && (h == OutOfStep ==> fate == Fate(0, Broke(BodyOutOfStep)))
    && (h == Serves && !KeptAlive(known, s) ==> fate == Fate(1, Finished))
    && (h == Serves && KeptAlive(known, s) ==>
          fate == Plus(1, FateOf(choice, known, more, NextFeed(s, g, room), room)))
  }
}
