/** The request reader of request.c in its own form: one fixed buffer, filled from the socket,
    cut up in place by writing NULs over delimiters. */
module RequestReader {
  import opened Text
  import opened Heads
  import opened Sockets

  /** A pointer into the buffer with its length. */
  datatype Slice = Slice(off: nat, len: nat)

  datatype HeaderRef = HeaderRef(name: string, value: Slice)

  datatype Scan = GotHead(nbytes: nat, ghost stop: nat) | ReadError | TooLong

  class RequestBuffer {
    const buffer: array<char>
    var position: nat  // buffer_position
    var nbytes: nat    // bytes from there on that have been received; later buffer_unread
    var unread: nat    // content_length_unread

    constructor ()
      ensures buffer.Length == MAX_LENGTH && fresh(buffer)
    {
      buffer := new char[MAX_LENGTH](_ => NUL);
      position, nbytes, unread := 0, 0, 0;
    }

    /** The bytes not yet parsed. */
    function Window(): string
      requires position + nbytes <= buffer.Length
      reads this, buffer
    {
      buffer[position..position + nbytes]
    }
  }

  /** first_of on a stretch of the buffer. */
  method FirstIndex(buffer: array<char>, off: nat, len: nat, c: char) returns (p: int)
    requires off + len <= buffer.Length
    ensures p == FirstOf(buffer[off..off + len], c)
  {
    ghost var s := buffer[off..off + len];
    for x := 0 to len
      invariant forall k | 0 <= k < x :: s[k] != c
    {
      assert buffer[off + x] == s[x];
      if buffer[off + x] == c {
        FirstOfIs(s, c, x);
        return x;
      }
    }
    FoundIfThere(s, c);
    return -1;
  }

  /** Counting newlines over one fragment of the stream `p`, carrying on the counter. */
  method ScanFragment(buffer: array<char>, from: nat, to: nat, start: nat, ghost p: string)
    returns (newlines: nat, found: bool, ghost stop: nat)
    requires from <= to <= buffer.Length && to <= |p| && buffer[..to] == p[..to]
    requires start == Newlines(p[..from]) && NoStopYet(p, from)
    ensures found ==> stop < to && StopsAt(p, stop)
    ensures !found ==> newlines == Newlines(p[..to]) && NoStopYet(p, to)
  {
    newlines, found, stop := start, false, 0;
    for i := from to to
      invariant newlines == Newlines(p[..i]) && NoStopYet(p, i)
    {
      assert p[..i + 1][..i] == p[..i];
      assert buffer[i] == buffer[..to][i] == p[i];
      match buffer[i] {
        case '\r' =>
        case '\n' =>
          newlines := newlines + 1;
          if newlines == 2 {
            found, stop := true, i;
            return;
          }
        case _ =>
          newlines := 0;
      }
    }
  }

  ghost predicate NoStopYet(p: string, n: nat)
    requires n <= |p|
  {
    forall k | 0 <= k <= n :: Newlines(p[..k]) < 2
  }

  /** Where the scanner stops, or any place past the end if it never does. */
  ghost predicate StopIs(p: string, e: nat) {
    StopsAt(p, e) || (|p| <= e && NoStopYet(p, |p|))
  }

  lemma StopIsThere(p: string, stop: nat, e: nat)
    requires StopsAt(p, stop) && StopIs(p, e)
    ensures stop == e
  {
    assert stop < e ==> 0 <= stop + 1 <= |p| && (stop + 1 <= e || |p| <= e);
    assert e < stop ==> 0 <= e + 1 <= stop;
  }

  lemma NoStopBefore(p: string, n: nat, e: nat)
    requires n <= |p| && NoStopYet(p, n) && StopIs(p, e)
    ensures n <= e
  {
  }

  /** How many bytes the reads for one head bring, and what they leave. */
  datatype Fetched = Fetched(n: nat, feed: Feed)

  /** Reading goes on, with the room that is left, until a read ends behind the scanner's stop at
      `e`, fills the buffer, or brings nothing. */
  function Fetch(f: Feed, n: nat, e: nat): Fetched
    requires n < MAX_LENGTH
    decreases Size(f)
  {
    var k, g := Taken(f, MAX_LENGTH - n), AfterTaking(f, MAX_LENGTH - n);
    if k == 0 || n + k >= MAX_LENGTH || n + k > e then Fetched(n + k, g) else Fetch(g, n + k, e)
  }

  /** How reading ends. */
  ghost predicate Ended(r: Scan, d: Fetched, f: Feed, e: nat) {
    && f == d.feed
    && (r == TooLong <==> d.n == MAX_LENGTH)
    && (r.GotHead? <==> e < d.n < MAX_LENGTH)
    && (r.GotHead? ==> r.nbytes == d.n && r.stop == e)
  }

  /** Reading until the blank line: takes some prefix of the pending bytes in which the scanner
      stops. On a network that flows, it is too long if and only if the reads made until the
      stop has come in fill the buffer. */
  method ReadHead(socket: Socket, buffer: array<char>, ghost e: nat) returns (r: Scan)
    requires buffer.Length == MAX_LENGTH && socket.connected
    modifies socket`connected, socket`requeue, socket`network, socket`receive, buffer
    ensures r.GotHead? ==>
      var p := old(socket.Pending());
      && r.stop < r.nbytes < MAX_LENGTH && r.nbytes <= |p|
      && buffer[..r.nbytes] == p[..r.nbytes] && socket.Pending() == p[r.nbytes..]
      && StopsAt(p, r.stop)
    ensures r.GotHead? ==> socket.connected && socket.requeue == []
    ensures r == TooLong ==> |old(socket.Pending())| >= MAX_LENGTH
    ensures Flowing(old(socket.receive)) ==> Flowing(socket.receive)
    ensures Flowing(old(socket.receive)) && StopIs(old(socket.Pending()), e) ==>
      var d := Fetch(old(socket.State()), 0, e);
      Ended(r, d, socket.State(), e)
  {
    ghost var p, f := socket.Pending(), socket.State();
    ghost var flows, d := Flowing(socket.receive), Fetch(f, 0, e);
    var nbytes, newlines := 0, 0;
    while true
      invariant Reading(socket, buffer, nbytes, newlines, p)
      invariant flows ==> Flowing(socket.receive)
      invariant flows && StopIs(p, e) ==> d == Fetch(socket.State(), nbytes, e)
      decreases |p| - nbytes
    {
      var again, scan;
      again, scan, nbytes, newlines := ReadFragment(socket, buffer, nbytes, newlines, p, e);
      if !again {
        return scan;
      }
    }
  }

  lemma FetchTurn(f: Feed, n: nat, m: nat, g: Feed, e: nat)
    requires n < MAX_LENGTH && m == n + Taken(f, MAX_LENGTH - n) && g == AfterTaking(f, MAX_LENGTH - n)
    ensures Fetch(f, n, e) == if n < m < MAX_LENGTH && m <= e then Fetch(g, m, e) else Fetched(m, g)
  {
  }

  /** The first `nbytes` of the stream `p` are in the buffer and have been scanned. */
  ghost predicate Reading(socket: Socket, buffer: array<char>, nbytes: nat, newlines: nat, p: string)
    reads socket, buffer
  {
    && nbytes < MAX_LENGTH == buffer.Length && nbytes <= |p| && socket.connected
    && buffer[..nbytes] == p[..nbytes] && socket.Pending() == p[nbytes..]
    && newlines == Newlines(p[..nbytes]) && NoStopYet(p, nbytes)
  }

  /** One turn of that loop. */
  method ReadFragment(socket: Socket, buffer: array<char>, nbytes: nat, newlines: nat, ghost p: string, ghost e: nat)
    returns (again: bool, scan: Scan, nbytes': nat, newlines': nat)
    requires Reading(socket, buffer, nbytes, newlines, p)
    modifies socket`connected, socket`requeue, socket`network, socket`receive, buffer
    ensures again ==> nbytes < nbytes' && Reading(socket, buffer, nbytes', newlines', p)
    ensures !again && scan.GotHead? ==>
      && scan.stop < scan.nbytes < MAX_LENGTH && scan.nbytes <= |p| && StopsAt(p, scan.stop)
      && buffer[..scan.nbytes] == p[..scan.nbytes] && socket.Pending() == p[scan.nbytes..]
      && socket.connected && socket.requeue == []
    ensures !again && scan == TooLong ==> |p| >= MAX_LENGTH
    ensures Flowing(old(socket.receive)) ==> Flowing(socket.receive)
    ensures Flowing(old(socket.receive)) && StopIs(p, e) ==>
      var d := Fetch(old(socket.State()), nbytes, e);
      if again then nbytes' < MAX_LENGTH && d == Fetch(socket.State(), nbytes', e)
      else Ended(scan, d, socket.State(), e)
  {
    ghost var f := socket.State();
    again, scan, nbytes', newlines' := TakeFragment(socket, buffer, nbytes, newlines, p, e);
    TurnIsFetch(f, nbytes, e, again, scan, nbytes', socket.State());
  }

  /** The turn has brought the number of bytes read from `n` to `m`. */
  ghost predicate TurnIs(n: nat, m: nat, e: nat, again: bool, scan: Scan, n': nat) {
    && (again <==> n < m < MAX_LENGTH && m <= e)
    && (again ==> n' == m)
    && (!again ==> (scan == TooLong <==> m == MAX_LENGTH) && (scan.GotHead? <==> e < m < MAX_LENGTH))
    && (!again && scan.GotHead? ==> scan.nbytes == m && scan.stop == e)
  }

  lemma TurnIsFetch(f: Feed, n: nat, e: nat, again: bool, scan: Scan, n': nat, g: Feed)
    requires n < MAX_LENGTH
    ensures g == AfterTaking(f, MAX_LENGTH - n) && TurnIs(n, n + Taken(f, MAX_LENGTH - n), e, again, scan, n') ==>
      if again then n' < MAX_LENGTH && Fetch(f, n, e) == Fetch(g, n', e) else Ended(scan, Fetch(f, n, e), g, e)
  {
    var m := n + Taken(f, MAX_LENGTH - n);
    if g == AfterTaking(f, MAX_LENGTH - n) && TurnIs(n, m, e, again, scan, n') {
      FetchTurn(f, n, m, g, e);
    }
  }

  /** One read, and the scan of what it brought. */
  method TakeFragment(socket: Socket, buffer: array<char>, nbytes: nat, newlines: nat, ghost p: string, ghost e: nat)
    returns (again: bool, scan: Scan, nbytes': nat, newlines': nat)
    requires Reading(socket, buffer, nbytes, newlines, p)
    modifies socket`connected, socket`requeue, socket`network, socket`receive, buffer
    ensures again ==> nbytes < nbytes' && Reading(socket, buffer, nbytes', newlines', p)
    ensures !again && scan.GotHead? ==>
      && scan.stop < scan.nbytes < MAX_LENGTH && scan.nbytes <= |p| && StopsAt(p, scan.stop)
      && buffer[..scan.nbytes] == p[..scan.nbytes] && socket.Pending() == p[scan.nbytes..]
      && socket.connected && socket.requeue == []
    ensures !again && scan == TooLong ==> |p| >= MAX_LENGTH
    ensures Flowing(old(socket.receive)) ==>
      Flowing(socket.receive) && socket.State() == AfterTaking(old(socket.State()), MAX_LENGTH - nbytes)
    ensures Flowing(old(socket.receive)) && StopIs(p, e) ==>
      TurnIs(nbytes, nbytes + Taken(old(socket.State()), MAX_LENGTH - nbytes), e, again, scan, nbytes')
  {
    again, scan, nbytes', newlines' := false, ReadError, nbytes, newlines;
    var ok, size := socket.Read(buffer, nbytes, MAX_LENGTH - nbytes);
    if StopIs(p, e) {
      NoStopBefore(p, nbytes, e);
    }
    if !ok {
      return;
    }
    FragmentRead(p, nbytes, size);
    nbytes' := nbytes + size;
    assert buffer[..nbytes'] == p[..nbytes'];
    if nbytes' == MAX_LENGTH {
      scan := TooLong;
      return;
    }
    var found; ghost var stop;
    newlines', found, stop := ScanFragment(buffer, nbytes, nbytes', newlines, p);
    ScanIsRight(p, nbytes', found, stop, e);
    again := !found;
    if found {
      scan := GotHead(nbytes', stop);
    }
  }

  /** The scan finds the stop exactly when it has come in. */
  lemma ScanIsRight(p: string, n: nat, found: bool, stop: nat, e: nat)
    requires n <= |p| && if found then stop < n && StopsAt(p, stop) else NoStopYet(p, n)
    ensures StopIs(p, e) ==> (found <==> e < n) && (found ==> stop == e)
  {
    if StopIs(p, e) {
      if found {
        StopIsThere(p, stop, e);
      } else {
        NoStopBefore(p, n, e);
      }
    }
  }

  lemma FragmentRead(p: string, n: nat, size: nat)
    requires n + size <= |p|
    ensures p[..n] + p[n..][..size] == p[..n + size] && p[n..][size..] == p[n + size..]
  {
  }
}
