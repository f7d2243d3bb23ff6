/** cflare_request_content_chunk, as it is written and as its comment has it. */
module Contents {
  import opened Text
  import opened Heads
  import opened Sockets
  import opened RequestReader

  /** A copy past the end of either buffer is out of bounds; the socket asserts that some room
      is left. */
  datatype Chunk = Chunk(ok: bool, read: nat) | OutOfBounds | AssertionFails

  /** Of the bytes asked for and the bytes received with the head, the code copies the larger
      number, under a comment that says to find the smallest. */
  datatype Choice = Larger | Smaller

  function Readable(choice: Choice, len: nat, received: nat): nat {
    match choice
    case Larger => if len > received then len else received
    case Smaller => Least(len, received)
  }

  /** size_t subtraction. */
  function Less(a: nat, b: nat): (d: nat)
    requires a < SIZE_MODULUS && b < SIZE_MODULUS
    ensures d < SIZE_MODULUS
  {
    if a < b then a - b + SIZE_MODULUS else a - b
  }

  /** All that is still to come on the connection: what the head's reads have already brought,
      then what the socket will. */
  ghost function Coming(req: RequestBuffer, socket: Socket): string
    requires req.position + req.nbytes <= req.buffer.Length
    reads req, req.buffer, socket
  {
    req.Window() + socket.Pending()
  }

  /** When a call can do what it is for. As written, the bytes already received must be exactly
      as many as are asked for. */
  predicate ChunkFits(choice: Choice, received: nat, unread: nat, room: nat, connected: bool) {
    if received > 0 then choice == Larger ==> received == Least(unread, room)
    else connected ==> Least(unread, room) > 0
  }

  /** The counters are right after `r`: it took the next bytes of the body and nothing else. */
  ghost predicate InStep(r: Chunk, req: RequestBuffer, socket: Socket, out: array<char>, coming: string, unread: nat)
    reads req, req.buffer, socket, out
  {
    && r.Chunk? && r.read <= out.Length && r.read <= unread
    && req.position + req.nbytes <= req.buffer.Length
    && coming == out[..r.read] + Coming(req, socket)
    && req.unread == unread - r.read
  }

  /** What a call leaves of the received bytes, and of the feed. */
  datatype Left = Left(received: nat, feed: Feed)

  function ChunkLeft(received: nat, f: Feed, len: nat): (left: Left)
    ensures left.received <= received
    ensures left.received + Size(left.feed) + ChunkRead(received, f, len) == received + Size(f)
    ensures f.pushed == 0 ==> left.feed.pushed == 0
  {
    if 0 < len <= received then Left(received - len, f)
    else Left(received - Least(len, received), AfterTaking(f, len - Least(len, received)))
  }

  function ChunkRead(received: nat, f: Feed, len: nat): (n: nat)
    ensures n <= len
  {
    if 0 < len <= received then len else Least(len, received) + Taken(f, len - Least(len, received))
  }

  /** The part of a call that copies received bytes. */
  method TakeReceived(req: RequestBuffer, out: array<char>, len: nat, choice: Choice)
    returns (ok: bool, readable: nat, rest: nat)
    requires req.position + req.nbytes <= req.buffer.Length == MAX_LENGTH && out != req.buffer
    requires req.unread < SIZE_MODULUS && out.Length < SIZE_MODULUS && len <= out.Length && len <= req.unread
    requires req.nbytes > 0
    modifies req`position, req`nbytes, req`unread, out
    ensures readable == Readable(choice, len, old(req.nbytes)) && req.position >= old(req.position)
    ensures ok <==> readable <= out.Length && old(req.position) + readable <= req.buffer.Length
    ensures ok ==> req.unread == Less(old(req.unread), readable) && req.nbytes == Less(old(req.nbytes), readable)
    ensures ok ==> rest == Less(len, readable)
    ensures ok && readable <= old(req.nbytes) ==>
      req.position + req.nbytes <= req.buffer.Length && old(req.Window()) == out[..readable] + req.Window()
  {
    ghost var w := req.Window();
    readable := Readable(choice, len, req.nbytes);
    ok, rest := readable <= out.Length && req.position + readable <= req.buffer.Length, 0;
    if ok {
      ghost var data := req.buffer[req.position..req.position + readable];
      CopyInto(out, 0, req.buffer[req.position..req.position + readable]);
      assert out[..readable] == data;
      req.position := req.position + readable;
      req.nbytes := Less(req.nbytes, readable);
      req.unread := Less(req.unread, readable);
      rest := Less(len, readable);
      assert readable <= |w| ==> w == data + req.Window();
    }
  }

  /** One chunk of the body, for a caller with `out.Length` bytes of room. */
  method ContentChunk(req: RequestBuffer, socket: Socket, out: array<char>, choice: Choice) returns (r: Chunk)
    requires req.position + req.nbytes <= req.buffer.Length == MAX_LENGTH && out != req.buffer
    requires req.unread < SIZE_MODULUS && out.Length < SIZE_MODULUS
    modifies req`position, req`nbytes, req`unread
    modifies socket`connected, socket`requeue, socket`network, socket`receive, out
    ensures req.position >= old(req.position)
    ensures InStep(r, req, socket, out, old(Coming(req, socket)), old(req.unread))
      <==> ChunkFits(choice, old(req.nbytes), old(req.unread), out.Length, old(socket.connected))
    ensures ChunkFits(choice, old(req.nbytes), old(req.unread), out.Length, old(socket.connected))
            && r.Chunk? && r.ok ==>
      && (Least(old(req.unread), out.Length) > 0 ==> r.read > 0)
      && (old(socket.connected) ==> socket.connected) && (choice == Larger ==> req.nbytes == 0)
    ensures Flowing(old(socket.receive)) && old(socket.connected) && Least(old(req.unread), out.Length) > 0
            && ChunkFits(choice, old(req.nbytes), old(req.unread), out.Length, true) ==>
      Flows(r, old(req.nbytes), old(socket.State()), Least(old(req.unread), out.Length), req.nbytes, socket.State())
  {
    ghost var window, pending, f := req.Window(), socket.Pending(), socket.State();
    ghost var flows := Flowing(socket.receive) && socket.connected;
    var len := Least(req.unread, out.Length);
    if req.nbytes == 0 {
      r := ReadOn(req, socket, out, 0, len);
      assert window + pending == pending && req.Window() == [];
      assert [] + socket.Pending() == socket.Pending();
      if flows && len > 0 {
        FlowsOn(r, 0, f, len, socket.State());
      }
    } else {
      r := ReceivedChunk(req, socket, out, len, choice);
    }
  }

  /** The call when some bytes have been received with the head. */
  method ReceivedChunk(req: RequestBuffer, socket: Socket, out: array<char>, len: nat, choice: Choice)
    returns (r: Chunk)
    requires req.position + req.nbytes <= req.buffer.Length == MAX_LENGTH && out != req.buffer && req.nbytes > 0
    requires req.unread < SIZE_MODULUS && out.Length < SIZE_MODULUS && len == Least(req.unread, out.Length)
    modifies req`position, req`nbytes, req`unread
    modifies socket`connected, socket`requeue, socket`network, socket`receive, out
    ensures req.position >= old(req.position)
    ensures InStep(r, req, socket, out, old(Coming(req, socket)), old(req.unread))
      <==> (choice == Larger ==> old(req.nbytes) == len)
    ensures (choice == Larger ==> old(req.nbytes) == len) && r.Chunk? && r.ok ==>
      && (len > 0 ==> r.read > 0)
      && (old(socket.connected) ==> socket.connected) && (choice == Larger ==> req.nbytes == 0)
    ensures Flowing(old(socket.receive)) && old(socket.connected) && len > 0
            && (choice == Larger ==> old(req.nbytes) == len) ==>
      Flows(r, old(req.nbytes), old(socket.State()), len, req.nbytes, socket.State())
  {
    ghost var window, pending, u, unread := req.Window(), socket.Pending(), req.nbytes, req.unread;
    var ok, readable, rest := TakeReceived(req, out, len, choice);
    if !ok {
      return OutOfBounds;
    }
    if rest == 0 {
      if readable <= u {
        Regrouped(out[..readable], req.Window(), pending);
      }
      return Chunk(true, readable);
    }
    if choice == Smaller {
      assert req.Window() == [] && window == out[..readable];
    }
    r := TopUp(req, socket, out, len, choice, readable, rest, u, unread);
  }

  /** Going on with what the copy has left to ask for. As written, there is something left only
      because the number has wrapped around. */
  method TopUp(req: RequestBuffer, socket: Socket, out: array<char>, len: nat, choice: Choice, readable: nat, rest: nat,
               ghost received: nat, ghost unread: nat)
    returns (r: Chunk)
    requires received < SIZE_MODULUS && unread < SIZE_MODULUS && out.Length < SIZE_MODULUS
    requires len == Least(unread, out.Length) && 0 < readable == Readable(choice, len, received) <= out.Length
    requires 0 < rest == Less(len, readable) && req.unread == Less(unread, readable)
    requires readable <= received ==>
      req.nbytes == received - readable && req.position + req.nbytes <= req.buffer.Length
    requires out != req.buffer
    modifies req`unread, socket`connected, socket`requeue, socket`network, socket`receive, out
    ensures InStep(r, req, socket, out, old(out[..readable] + socket.Pending()), unread) <==> choice == Smaller
    ensures choice == Smaller && r.Chunk? && r.ok ==> r.read > 0 && socket.connected
    ensures choice == Smaller && Flowing(old(socket.receive)) && old(socket.connected) ==>
      Flows(r, received, old(socket.State()), len, req.nbytes, socket.State())
  {
    ghost var f, flows := socket.State(), Flowing(socket.receive) && socket.connected;
    r := ReadOn(req, socket, out, readable, rest);
    if choice == Smaller {
      assert req.Window() == [] && [] + socket.Pending() == socket.Pending();
      if flows {
        FlowsOn(r, received, f, len, socket.State());
      }
    }
  }

  /** On a network that flows: what the call read, and what it left. */
  ghost predicate Flows(r: Chunk, received: nat, f: Feed, len: nat, received': nat, f': Feed) {
    && r.Chunk? && Flowing(f'.receive) && (received < len && Size(f) > 0 ==> r.read > received)
    && r.read == ChunkRead(received, f, len) && Left(received', f') == ChunkLeft(received, f, len)
    && (r.ok <==> len <= received || Size(f) > 0)
  }

  lemma FlowsOn(r: Chunk, received: nat, f: Feed, len: nat, f': Feed)
    requires received < len && r.Chunk? && r.read == received + Taken(f, len - received)
    requires f' == AfterTaking(f, len - received) && Flowing(f.receive) && (r.ok <==> Size(f) > 0)
    ensures Flows(r, received, f, len, 0, f')
  {
    assert Least(len, received) == received;
  }

  lemma SplicedBehind(out: string, n: nat, pending: string, k: nat)
    requires k <= |pending| && n + k <= |out|
    ensures out[..n] + pending == Splice(out, n, pending[..k])[..n + k] + pending[k..]
  {
    assert Splice(out, n, pending[..k])[..n + k] == out[..n] + pending[..k];
    assert pending == pending[..k] + pending[k..];
  }

  lemma Regrouped(a: string, b: string, c: string)
    ensures a + b + c == a + (b + c) && [] + c == c
  {
  }

  /** The part of a call that reads from the socket, after `readable` bytes. */
  method ReadOn(req: RequestBuffer, socket: Socket, out: array<char>, readable: nat, len: nat) returns (r: Chunk)
    requires len < SIZE_MODULUS && req.unread < SIZE_MODULUS && out.Length < SIZE_MODULUS && readable <= out.Length
    modifies req`unread, socket`connected, socket`requeue, socket`network, socket`receive, out
    ensures r.Chunk? <==> !old(socket.connected) || 0 < len <= out.Length - readable
    ensures r.Chunk? ==> readable <= r.read <= readable + len && (r.ok <==> r.read > readable)
    ensures r.Chunk? ==> r.read <= out.Length && req.unread == Less(old(req.unread), r.read - readable)
    ensures r.Chunk? ==> old(out[..readable] + socket.Pending()) == out[..r.read] + socket.Pending()
    ensures r.Chunk? && r.ok ==> old(socket.connected) && socket.connected
    ensures r.Chunk? && Flowing(old(socket.receive)) && old(socket.connected) ==>
      && Flowing(socket.receive) && (r.ok <==> Size(old(socket.State())) > 0)
      && r.read == readable + Taken(old(socket.State()), len) && socket.State() == AfterTaking(old(socket.State()), len)
  {
    if socket.connected && len == 0 {
      return AssertionFails;
    }
    if socket.connected && readable + len > out.Length {
      return OutOfBounds;
    }
    if !socket.connected {
      return Chunk(false, readable);
    }
    ghost var before, pending := out[..], socket.Pending();
    var ok, n := socket.Read(out, readable, len);
    SplicedBehind(before, readable, pending, n);
    req.unread := Less(req.unread, n);
    r := Chunk(ok, readable + n);
  }
}
