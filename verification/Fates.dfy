/** What becomes of a connection: how many of the requests sent are handled, and why it ends then,
    computed from the requests, from what each read brings, and from the room the handler offers.
    The server itself is shown to meet this fate in Connections. */
module Fates {
  import opened Options
  import opened Text
  import opened Numbers
  import opened Heads
  import opened HeadRoundTrip
  import opened Sockets
  import opened RequestReader
  import opened Contents

  /** A request with its body. */
  datatype Sent = Sent(message: Message, body: string)

  /** A request whose stated length is its body's. */
  predicate GoodSent(known: set<string>, s: Sent) {
    GoodMessage(known, s.message) && MeantRequest(known, s.message).contentLength == |s.body|
  }

  predicate AllGood(known: set<string>, sents: seq<Sent>) {
    forall i | 0 <= i < |sents| :: GoodSent(known, sents[i])
  }

  predicate KeptAlive(known: set<string>, s: Sent)
    requires GoodSent(known, s)
  {
    MeantRequest(known, s.message).keepalive
  }

  function Printed(s: Sent): string {
    Print(s.message) + s.body
  }

  function Stream(sents: seq<Sent>): string {
    if sents == [] then [] else Printed(sents[0]) + Stream(sents[1..])
  }

  // One request.

  /** Where the scanner stops on this request. */
  function HeadStop(m: Message): nat {
    if |Print(m)| > 0 then |Print(m)| - 1 else 0
  }

  /** What is read for its head. */
  function HeadFetch(s: Sent, f: Feed): Fetched {
    Fetch(f, 0, HeadStop(s.message))
  }

  /** How much of it lies behind the head. */
  function Ahead(s: Sent, f: Feed): nat {
    var n, h := HeadFetch(s, f).n, |Print(s.message)|;
    if n > h then n - h else 0
  }

  /** The handler's first call for a body it has to read can do what it is for. */
  predicate BodyFits(choice: Choice, received: nat, unread: nat, room: nat) {
    unread == 0 || ChunkFits(choice, received, unread, room, true)
  }

  ghost predicate GoodRooms(room: nat -> nat) {
    forall i :: 0 < room(i) < SIZE_MODULUS
  }

  /** What reading a body to its end leaves, when the calls from the `i`th on are made. */
  function BodyLeft(received: nat, f: Feed, unread: nat, room: nat -> nat, i: nat): (all: Left)
    ensures all.received <= received && all.received + Size(all.feed) <= received + Size(f)
    ensures f.pushed == 0 ==> all.feed.pushed == 0
    decreases unread
  {
    if unread == 0 then Left(received, f)
    else
      var len := Least(unread, room(i));
      var n, left := ChunkRead(received, f, len), ChunkLeft(received, f, len);
      if n == 0 then left else BodyLeft(left.received, left.feed, unread - n, room, i + 1)
  }

  datatype Handling = Serves | HeadFills | OutOfStep

  function HandlingOf(choice: Choice, s: Sent, f: Feed, room: nat -> nat): Handling {
    if HeadFetch(s, f).n >= MAX_LENGTH then HeadFills
    else if BodyFits(choice, Ahead(s, f), |s.body|, room(0)) then Serves
    else OutOfStep
  }

  /** What is there after a body, when the bytes read ahead have been pushed back. */
  function FeedAfter(received: nat, f: Feed, unread: nat, room: nat -> nat): Feed {
    var left := BodyLeft(received, f, unread, room, 0);
    Feed(left.received + left.feed.pushed, left.feed.network, left.feed.receive)
  }

  /** What is there for the next request. */
  function NextFeed(s: Sent, f: Feed, room: nat -> nat): Feed {
    FeedAfter(Ahead(s, f), HeadFetch(s, f).feed, |s.body|, room)
  }

  // A whole connection.

  datatype Why =
    | ReadFailed | HeadTooLong | BadHead(status: nat) | HeadAborts | HostIsRewritten
    | BodyOutOfStep | BodyCut

  /** The last request asked for the end, or the next one could not be handled. */
  datatype End = Finished | Broke(why: Why)

  datatype Fate = Fate(served: nat, end: End)

  function FateOf(choice: Choice, known: set<string>, sents: seq<Sent>, f: Feed, room: nat -> nat): (fate: Fate)
    requires AllGood(known, sents)
    ensures fate.served <= |sents|
    decreases |sents|
  {
    if sents == [] then Fate(0, Broke(ReadFailed))
    else
      match HandlingOf(choice, sents[0], f, room)
      case HeadFills => Fate(0, Broke(HeadTooLong))
      case OutOfStep => Fate(0, Broke(BodyOutOfStep))
      case Serves =>
        if !KeptAlive(known, sents[0]) then Fate(1, Finished)
        else
          var rest := FateOf(choice, known, sents[1..], NextFeed(sents[0], f, room), room);
          Fate(rest.served + 1, rest.end)
  }

  /** The requests up to the first that asks for the end. */
  function Wanted(known: set<string>, sents: seq<Sent>): (n: nat)
    requires AllGood(known, sents)
    ensures n <= |sents|
    decreases |sents|
  {
    if sents == [] then 0 else if !KeptAlive(known, sents[0]) then 1 else 1 + Wanted(known, sents[1..])
  }

  /** No read for a head fills the buffer before the head's stop has come in. */
  predicate NeverFills(known: set<string>, sents: seq<Sent>, f: Feed, room: nat -> nat)
    requires AllGood(known, sents)
    decreases |sents|
  {
    sents == [] || (
      HeadFetch(sents[0], f).n < MAX_LENGTH &&
      (KeptAlive(known, sents[0]) ==> NeverFills(known, sents[1..], NextFeed(sents[0], f, room), room)))
  }

  /** For no body have more or fewer bytes been read ahead than the handler's first call asks for,
      or none at all. */
  predicate BodiesFit(choice: Choice, known: set<string>, sents: seq<Sent>, f: Feed, room: nat -> nat)
    requires AllGood(known, sents)
    decreases |sents|
  {
    sents == [] || (
      BodyFits(choice, Ahead(sents[0], f), |sents[0].body|, room(0)) &&
      (KeptAlive(known, sents[0]) ==> BodiesFit(choice, known, sents[1..], NextFeed(sents[0], f, room), room)))
  }

  /** Every request is served, up to the one that asks for the end, if and only if no head's reads
      fill the buffer and every body fits. */
  lemma {:induction false} AllServed(choice: Choice, known: set<string>, sents: seq<Sent>, f: Feed, room: nat -> nat)
    requires AllGood(known, sents)
    ensures FateOf(choice, known, sents, f, room).served == Wanted(known, sents)
      <==> NeverFills(known, sents, f, room) && BodiesFit(choice, known, sents, f, room)
    decreases |sents|
  {
    if sents != [] && KeptAlive(known, sents[0]) {
      AllServed(choice, known, sents[1..], NextFeed(sents[0], f, room), room);
    }
  }

  /** With the smaller number, as the comment has it, every body fits. */
  lemma {:induction false} SmallerFits(known: set<string>, sents: seq<Sent>, f: Feed, room: nat -> nat)
    requires AllGood(known, sents) && GoodRooms(room)
    ensures BodiesFit(Smaller, known, sents, f, room)
    decreases |sents|
  {
    if sents != [] && KeptAlive(known, sents[0]) {
      SmallerFits(known, sents[1..], NextFeed(sents[0], f, room), room);
    }
  }

  lemma SmallerServes(known: set<string>, sents: seq<Sent>, f: Feed, room: nat -> nat)
    requires AllGood(known, sents) && GoodRooms(room)
    ensures FateOf(Smaller, known, sents, f, room).served == Wanted(known, sents) <==> NeverFills(known, sents, f, room)
  {
    SmallerFits(known, sents, f, room);
    AllServed(Smaller, known, sents, f, room);
  }

  /** Without bodies, both do. */
  lemma {:induction false} NoBodiesFit(choice: Choice, known: set<string>, sents: seq<Sent>, f: Feed, room: nat -> nat)
    requires AllGood(known, sents) && forall i | 0 <= i < |sents| :: sents[i].body == []
    ensures BodiesFit(choice, known, sents, f, room)
    decreases |sents|
  {
    if sents != [] && KeptAlive(known, sents[0]) {
      NoBodiesFit(choice, known, sents[1..], NextFeed(sents[0], f, room), room);
    }
  }

  // Networks on which no head's reads fill the buffer.

  /** Reading goes on until the stop has come in, if it is there and the buffer does not fill. */
  lemma {:induction false} FetchReaches(f: Feed, n: nat, e: nat)
    requires n <= e < n + Size(f) && n < MAX_LENGTH && Flowing(f.receive)
    ensures var d := Fetch(f, n, e); d.n <= MAX_LENGTH && (e < d.n || d.n == MAX_LENGTH)
    decreases Size(f)
  {
    var k, g := Taken(f, MAX_LENGTH - n), AfterTaking(f, MAX_LENGTH - n);
    if !(k == 0 || n + k >= MAX_LENGTH || n + k > e) {
      FetchReaches(g, n + k, e);
    }
  }

  lemma {:induction false} FetchKeepsSize(f: Feed, n: nat, e: nat)
    requires n < MAX_LENGTH
    ensures var d := Fetch(f, n, e); d.n + Size(d.feed) == n + Size(f)
    decreases Size(f)
  {
    var k, g := Taken(f, MAX_LENGTH - n), AfterTaking(f, MAX_LENGTH - n);
    if !(k == 0 || n + k >= MAX_LENGTH || n + k > e) {
      FetchKeepsSize(g, n + k, e);
    }
  }

  lemma NextIsNoLonger(s: Sent, f: Feed, room: nat -> nat)
    ensures Size(NextFeed(s, f, room)) <= Size(f)
  {
    FetchKeepsSize(f, 0, HeadStop(s.message));
  }

  /** Fewer bytes than the buffer holds never fill it. */
  lemma {:induction false} ShortNeverFills(known: set<string>, sents: seq<Sent>, f: Feed, room: nat -> nat)
    requires AllGood(known, sents) && Size(f) < 4096
    ensures NeverFills(known, sents, f, room)
    decreases |sents|
  {
    if sents != [] {
      FetchKeepsSize(f, 0, HeadStop(sents[0].message));
      if KeptAlive(known, sents[0]) {
        NextIsNoLonger(sents[0], f, room);
        ShortNeverFills(known, sents[1..], NextFeed(sents[0], f, room), room);
      }
    }
  }

  /** Reads of at most `q` bytes go at most `q` past the stop, or past what was pushed back. */
  lemma {:induction false} FetchSmall(f: Feed, n: nat, e: nat, q: nat)
    requires n <= e < MAX_LENGTH && Bounded(f.receive, q)
    requires f.pushed == 0 || n == 0
    requires f.pushed + q < MAX_LENGTH && e + q < MAX_LENGTH
    ensures var d := Fetch(f, n, e);
      && d.n <= (if n + f.pushed > e then n + f.pushed + q else e + q)
      && d.feed.pushed == 0 && Bounded(d.feed.receive, q)
    decreases Size(f)
  {
    var k, g := Taken(f, MAX_LENGTH - n), AfterTaking(f, MAX_LENGTH - n);
    assert k <= f.pushed + q && g.pushed == 0 && Bounded(g.receive, q);
    if !(k == 0 || n + k >= MAX_LENGTH || n + k > e) {
      FetchSmall(g, n + k, e, q);
    }
  }

  lemma {:induction false} BodyIsBounded(received: nat, f: Feed, unread: nat, room: nat -> nat, i: nat, q: nat)
    requires Bounded(f.receive, q)
    ensures Bounded(BodyLeft(received, f, unread, room, i).feed.receive, q)
    decreases unread
  {
    if unread > 0 {
      var len := Least(unread, room(i));
      var n, left := ChunkRead(received, f, len), ChunkLeft(received, f, len);
      assert Bounded(left.feed.receive, q);
      if n > 0 {
        BodyIsBounded(left.received, left.feed, unread - n, room, i + 1, q);
      }
    }
  }

  /** Reads of at most `q` bytes never fill the buffer, however many requests come one after the
      other, if no head is shorter than that, and each fits the buffer with one read to spare. */
  lemma {:induction false} SmallReadsNeverFill(known: set<string>, sents: seq<Sent>, f: Feed, room: nat -> nat, q: nat)
    requires AllGood(known, sents) && f.pushed <= q && Bounded(f.receive, q)
    requires forall i | 0 <= i < |sents| :: q <= |Print(sents[i].message)| && |Print(sents[i].message)| + q < MAX_LENGTH
    ensures NeverFills(known, sents, f, room)
    decreases |sents|
  {
    if sents != [] {
      var s := sents[0];
      PrintHasBytes(s.message);
      FetchSmall(f, 0, HeadStop(s.message), q);
      if KeptAlive(known, s) {
        BodyIsBounded(Ahead(s, f), HeadFetch(s, f).feed, |s.body|, room, 0, q);
        SmallReadsNeverFill(known, sents[1..], NextFeed(s, f, room), room, q);
      }
    }
  }

  lemma PrintHasBytes(m: Message)
    ensures |Print(m)| > 0
  {
  }

  // Connections that fail.

  /** Everything the client has sent comes in at once. */
  predicate Burst(f: Feed) {
    f.pushed == 0 && f.receive.Always? && f.receive.upto >= MAX_LENGTH
  }

  lemma BurstFetch(s: Sent, f: Feed)
    requires Burst(f)
    ensures HeadFetch(s, f).n == Least(Size(f), MAX_LENGTH) || (Size(f) < MAX_LENGTH && Size(f) <= HeadStop(s.message))
  {
  }

  /** Requests that come in a burst of at least the buffer's size get none of them served, however
      short each of them is. */
  lemma LongBurstFails(choice: Choice, known: set<string>, sents: seq<Sent>, f: Feed, room: nat -> nat)
    requires AllGood(known, sents) && sents != [] && Burst(f) && Size(f) >= 4096
    ensures FateOf(choice, known, sents, f, room) == Fate(0, Broke(HeadTooLong))
  {
    BurstFetch(sents[0], f);
  }

  /** As written, a body with anything behind it in the same burst is never read right, whatever
      room the handler offers; by the comment everything is served. */
  lemma BurstWithBodyFails(known: set<string>, sents: seq<Sent>, f: Feed, room: nat -> nat)
    requires AllGood(known, sents) && sents != [] && GoodRooms(room)
    requires Burst(f) && |Printed(sents[0])| < Size(f) == |Stream(sents)| < MAX_LENGTH && sents[0].body != []
    ensures FateOf(Larger, known, sents, f, room) == Fate(0, Broke(BodyOutOfStep))
    ensures FateOf(Smaller, known, sents, f, room).served == Wanted(known, sents)
  {
    BurstFetch(sents[0], f);
    PrintHasBytes(sents[0].message);
    ShortNeverFills(known, sents, f, room);
    SmallerServes(known, sents, f, room);
  }

  /** As written, a request that comes alone and at once is served if and only if it has no body,
      or the handler's first call has room for all of it. */
  lemma LoneBurst(known: set<string>, s: Sent, f: Feed, room: nat -> nat)
    requires GoodSent(known, s) && GoodRooms(room) && Burst(f) && Size(f) == |Printed(s)| < MAX_LENGTH
    ensures FateOf(Larger, known, [s], f, room).served == 1 <==> s.body == [] || |s.body| <= room(0)
  {
    BurstFetch(s, f);
    PrintHasBytes(s.message);
  }

  // Requests to show it with.

  const HOST := Header("Host", "h", false)

  /** GET, more or less, in 22 bytes. */
  const TINY := Message("G", "/", None, "HTTP/1.1", false, [HOST], false)

  const TINY_WITH_BODY := TINY.(headers := [HOST, Header("Content-Length", "1", false)])

  lemma TinyNames()
    ensures Lower("Host") == "host" && Lower("Content-Length") == "content-length"
    ensures "host" != "content-length" && "host" != "connection" && "content-length" != "connection"
  {
    assert "host"[0] != "content-length"[0] && "host"[0] != "connection"[0];
    assert "content-length"[3] != "connection"[3];
  }

  lemma TinyLength()
    ensures |Print(TINY)| == 22
  {
    assert |PrintStart(TINY)| == 13;
    assert [HOST][1..] == [];
    assert |PrintHeaders([], false)| == 1;
    assert |LineText(HOST)| == 7;
  }

  lemma TinyIsGood(known: set<string>)
    requires IMPORTANT <= known
    ensures GoodSent(known, Sent(TINY, [])) && KeptAlive(known, Sent(TINY, [])) && |Print(TINY)| == 22
  {
    TinyNames();
    TinyLength();
    assert [HOST][..0] == [] && [HOST][1..] == [];
    assert |Kept(known, [HOST])| <= 1;
    assert LastValue([HOST], "host") == Some("h");
    assert LastValue([HOST], "content-length") == None && LastValue([HOST], "connection") == None;
  }

  function Repeat(s: Sent, n: nat): seq<Sent> {
    if n == 0 then [] else [s] + Repeat(s, n - 1)
  }

  lemma {:induction false} RepeatIsGood(known: set<string>, s: Sent, n: nat)
    requires GoodSent(known, s)
    ensures AllGood(known, Repeat(s, n))
  {
    if n > 0 {
      RepeatIsGood(known, s, n - 1);
    }
  }

  lemma StreamCons(s: Sent, rest: seq<Sent>)
    ensures |Stream([s] + rest)| == |Printed(s)| + |Stream(rest)|
  {
    assert ([s] + rest)[1..] == rest;
  }

  lemma {:induction false} RepeatIsLong(s: Sent, n: nat, size: nat)
    requires size == |Printed(s)|
    ensures |Stream(Repeat(s, n))| == n * size
  {
    if n > 0 {
      var rest := Repeat(s, n - 1);
      RepeatIsLong(s, n - 1, size);
      StreamCons(s, rest);
      OneMoreTime(n, size);
    }
  }

  lemma OneMoreTime(n: nat, size: nat)
    requires n > 0
    ensures size + (n - 1) * size == n * size
  {
  }

  /** Two hundred requests of 22 bytes, sent in one go: not one is served. */
  lemma TinyBurstFails(choice: Choice, known: set<string>, room: nat -> nat)
    requires IMPORTANT <= known
    ensures var sents := Repeat(Sent(TINY, []), 200); var f := Feed(0, |Stream(sents)|, Always(MAX_LENGTH));
      AllGood(known, sents) && FateOf(choice, known, sents, f, room) == Fate(0, Broke(HeadTooLong))
  {
    var s := Sent(TINY, []);
    TinyIsGood(known);
    RepeatIsGood(known, s, 200);
    RepeatIsLong(s, 200, 22);
    var sents := Repeat(s, 200);
    LongBurstFails(choice, known, sents, Feed(0, |Stream(sents)|, Always(MAX_LENGTH)), room);
  }

  lemma OneIsExact()
    ensures ExactNumber("1") && Meaning("1") == Number(1)
  {
    DecimalRoundTrip(1);
    assert Decimal(1) == "1";
  }

  lemma TinyBodyIsGood(known: set<string>)
    requires IMPORTANT <= known
    ensures var s := Sent(TINY_WITH_BODY, "x"); GoodSent(known, s) && KeptAlive(known, s) && |Printed(s)| < 50
  {
    TinyNames();
    OneIsExact();
    var hs, length := TINY_WITH_BODY.headers, Header("Content-Length", "1", false);
    assert hs == [HOST, length] && hs[..1] == [HOST] && [HOST][..0] == [];
    assert |Kept(known, [])| == 0 && |Kept(known, [HOST])| <= 1 && |Kept(known, hs)| <= 2;
    assert LastValue(hs, "content-length") == Some("1");
    assert LastValue(hs, "host") == LastValue([HOST], "host") == Some("h");
    assert LastValue(hs, "connection") == LastValue([HOST], "connection") == LastValue([], "connection") == None;
    TinyBodyLength();
  }

  lemma TinyBodyLength()
    ensures |Print(TINY_WITH_BODY)| < 49
  {
    var hs, length := TINY_WITH_BODY.headers, Header("Content-Length", "1", false);
    assert |PrintStart(TINY_WITH_BODY)| == 13;
    assert hs[1..] == [length] && [length][1..] == [];
    assert |PrintHeaders([], false)| == 1 && |LineText(length)| == 17 && |LineText(HOST)| == 7;
    assert |PrintHeaders([length], false)| == 19 && |PrintHeaders(hs, false)| == 27;
  }

  /** A body of one byte and a request behind it, sent in one go: as written, neither is served;
      by the comment, both are. */
  lemma TinyBodyFails(known: set<string>, room: nat -> nat)
    requires IMPORTANT <= known && GoodRooms(room)
    ensures var sents := [Sent(TINY_WITH_BODY, "x"), Sent(TINY, [])];
      var f := Feed(0, |Stream(sents)|, Always(MAX_LENGTH));
      && AllGood(known, sents)
      && FateOf(Larger, known, sents, f, room) == Fate(0, Broke(BodyOutOfStep))
      && FateOf(Smaller, known, sents, f, room).served == 2
  {
    var a, b := Sent(TINY_WITH_BODY, "x"), Sent(TINY, []);
    TinyBodyIsGood(known);
    TinyIsGood(known);
    StreamCons(a, [b]);
    StreamCons(b, []);
    assert [b] + [] == [b] && [a] + [b] == [a, b] && [a, b][1..] == [b] && [b][1..] == [];
    BurstWithBodyFails(known, [a, b], Feed(0, |Stream([a, b])|, Always(MAX_LENGTH)), room);
  }
}
