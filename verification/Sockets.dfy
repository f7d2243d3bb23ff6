/** The push-back stream of cflare-posix/socket.c. The network is an arbitrary byte source
    and sink: `receive` and `send` list what the kernel will answer, and say nothing about
    where messages begin. */
module Sockets {
  import opened Text

  datatype Reply = Data(upto: nat) | Failure(code: nat)

  datatype SendReply = Passed(upto: nat) | WouldBlock(writable: bool) | Broken

  /** The replies of recv to come: at last, each brings up to so many bytes. */
  datatype Replies = Always(upto: nat) | Next(reply: Reply, later: Replies)

  function Reply0(r: Replies): Reply {
    match r
    case Always(upto) => Data(upto)
    case Next(reply, _) => reply
  }

  function Later(r: Replies): Replies {
    if r.Next? then r.later else r
  }

  /** No call fails, and each brings at least one byte while there are any. */
  predicate Flowing(r: Replies) {
    Reply0(r).Data? && Reply0(r).upto > 0 && (r.Next? ==> Flowing(r.later))
  }

  function Least(a: nat, b: nat): nat {
    if a < b then a else b
  }

  /** No recv fails, or brings more than `q` bytes. */
  predicate Bounded(r: Replies, q: nat) {
    Reply0(r).Data? && 0 < Reply0(r).upto <= q && (r.Next? ==> Bounded(r.later, q))
  }

  /** How much a reader will meet: the numbers of bytes pushed back and on the network, and the
      replies of recv. */
  datatype Feed = Feed(pushed: nat, network: nat, receive: Replies)

  function Size(f: Feed): nat {
    f.pushed + f.network
  }

  /** How many bytes a flowing recv brings of the `len` asked for. */
  function Received(f: Feed, len: nat): nat {
    match Reply0(f.receive)
    case Data(upto) => Least(Least(upto, len), f.network)
    case Failure(_) => 0
  }

  /** How many a read takes: pushed-back bytes first, then what one recv brings. */
  function Taken(f: Feed, len: nat): (n: nat)
    ensures n <= len && n <= Size(f)
    ensures Flowing(f.receive) && len > 0 && Size(f) > 0 ==> n > 0
    ensures Flowing(f.receive) && f.pushed < len && f.network > 0 ==> n > f.pushed
  {
    var m := Least(len, f.pushed);
    m + Received(f, len - m)
  }

  function AfterTaking(f: Feed, len: nat): (g: Feed)
    ensures Size(g) + Taken(f, len) == Size(f)
    ensures Flowing(f.receive) ==> Flowing(g.receive)
    ensures f.pushed <= len ==> g.pushed == 0
  {
    var m := Least(len, f.pushed);
    Feed(f.pushed - m, f.network - Received(f, len - m), Later(f.receive))
  }

  class Socket {
    var connected: bool
    var requeue: string          // bytes pushed back, to be read first
    var network: string          // bytes the peer has sent or will send
    var receive: Replies
    var send: seq<SendReply>
    var output: string           // bytes the peer has been sent

    constructor (network: string, receive: Replies, send: seq<SendReply>)
      ensures connected && requeue == [] && output == []
      ensures this.network == network && this.receive == receive && this.send == send
    {
      connected, requeue, output := true, [], [];
      this.network, this.receive, this.send := network, receive, send;
    }

    /** The one byte stream that readers see. */
    function Pending(): string
      reads this
    {
      requeue + network
    }

    function State(): Feed
      reads this
    {
      Feed(|requeue|, |network|, receive)
    }

    /** recv: some prefix of the network, 0 at its end, or a negative error. */
    method Recv(buffer: array<char>, off: nat, len: nat) returns (r: int)
      requires off + len <= buffer.Length
      modifies this`network, this`receive, buffer
      ensures r <= len
      ensures var n := if r > 0 then r else 0;
        && n <= |old(network)| && network == old(network)[n..]
        && buffer[..] == Splice(old(buffer[..]), off, old(network)[..n])
      ensures receive == Later(old(receive))
      ensures Flowing(old(receive)) ==> r == Received(old(State()), len)
      ensures r < 0 <==> Reply0(old(receive)).Failure?
      ensures r < 0 ==> r == -1 - Reply0(old(receive)).code
    {
      var reply := Reply0(receive);
      receive := Later(receive);
      match reply {
        case Failure(code) =>
          r := -1 - code;
          SpliceNothing(buffer[..], off);
        case Data(upto) =>
          r := if upto < len then upto else len;
          r := if r < |network| then r else |network|;
          CopyInto(buffer, off, network[..r]);
          network := network[r..];
      }
    }

    /** cflare_socket_requeue: the bytes go in front of everything still to be read. */
    method Requeue(data: string)
      modifies this`requeue
      ensures requeue == data + old(requeue)
      ensures Pending() == data + old(Pending())
    {
      requeue := data + requeue;
      assert Pending() == data + old(Pending());
    }

    method RequeueRead(buffer: array<char>, off: nat, len: nat) returns (n: nat)
      requires off + len <= buffer.Length
      modifies this`requeue, buffer
      ensures n == if len < |old(requeue)| then len else |old(requeue)|
      ensures requeue == old(requeue)[n..]
      ensures buffer[..] == Splice(old(buffer[..]), off, old(requeue)[..n])
    {
      n := if len < |requeue| then len else |requeue|;
      CopyInto(buffer, off, requeue[..n]);
      requeue := requeue[n..];
    }

    /** The reading of pushed-back bytes, topped up from the network, whose error is ignored. */
    method ReadPushedBack(buffer: array<char>, off: nat, len: nat) returns (n: nat)
      requires off + len <= buffer.Length && len > 0 && requeue != []
      modifies this`requeue, this`network, this`receive, buffer
      ensures 0 < n <= len && n <= |old(Pending())| && Pending() == old(Pending())[n..]
      ensures buffer[..] == Splice(old(buffer[..]), off, old(Pending())[..n])
      ensures requeue == [] || n == len
      ensures Flowing(old(receive)) ==> n == Taken(old(State()), len) && State() == AfterTaking(old(State()), len)
    {
      ghost var was, q, w := buffer[..], requeue, network;
      ghost var between;
      var m, k;
      m, k, between := TakeBoth(buffer, off, len);
      n := m + k;
      TakenTwice(was, between, buffer[..], off, q, w, m, k);
    }

    method TakeBoth(buffer: array<char>, off: nat, len: nat) returns (m: nat, k: nat, ghost between: string)
      requires off + len <= buffer.Length
      modifies this`requeue, this`network, this`receive, buffer
      ensures m == Least(len, |old(requeue)|) && m + k <= len && k <= |old(network)|
      ensures requeue == old(requeue)[m..] && network == old(network)[k..]
      ensures |between| == buffer.Length && between == Splice(old(buffer[..]), off, old(requeue)[..m])
      ensures buffer[..] == Splice(between, off + m, old(network)[..k])
      ensures receive == Later(old(receive))
      ensures Flowing(old(receive)) ==> k == Received(old(State()), len - m)
    {
      m := RequeueRead(buffer, off, len);
      between := buffer[..];
      var r := Recv(buffer, off + m, len - m);
      k := if r > 0 then r else 0;
    }

    /** cflare_socket_read: takes a non-empty prefix of the pending bytes, or nothing. */
    method Read(buffer: array<char>, off: nat, len: nat) returns (ok: bool, n: nat)
      requires off + len <= buffer.Length && (connected ==> len > 0)
      modifies this`connected, this`requeue, this`network, this`receive, buffer
      ensures n <= len && (ok <==> n > 0)
      ensures n <= |old(Pending())| && Pending() == old(Pending())[n..]
      ensures buffer[..] == Splice(old(buffer[..]), off, old(Pending())[..n])
      ensures ok ==> requeue == [] || n == len
      ensures ok ==> connected && old(connected)
      ensures old(connected) && old(requeue) != [] ==> ok
      ensures old(connected) && Flowing(old(receive)) ==>
        n == Taken(old(State()), len) && State() == AfterTaking(old(State()), len)
      ensures old(connected) && Flowing(old(receive)) ==> Flowing(receive) && (ok <==> old(Pending()) != [])
      ensures old(connected) && Flowing(old(receive)) && |old(requeue)| < len && old(network) != [] ==>
        n > |old(requeue)|
      ensures old(connected) && !ok ==>
        (connected <==> Reply0(old(receive)) == Failure(0) || Reply0(old(receive)) == Failure(1))
    {
      n, ok := 0, false;
      SpliceNothing(buffer[..], off);
      if connected {
        if |requeue| > 0 {
          n := ReadPushedBack(buffer, off, len);
          ok := true;
        } else {
          var r := Recv(buffer, off, len);
          if r > 0 {
            ok, n := true, r;
          } else if r == 0 || r < -2 {
            connected := false;
          }
        }
      }
    }

    /** One byte for read_line: from the pushed-back bytes if there are any. */
    method ReadByte(buffer: array<char>, at: nat) returns (ok: bool)
      requires at < buffer.Length
      modifies this`connected, this`requeue, this`network, this`receive, buffer
      ensures ok ==> connected == old(connected) && old(Pending()) != [] && Pending() == old(Pending())[1..]
      ensures ok ==> buffer[..] == old(buffer[..])[at := old(Pending())[0]]
      ensures !ok ==> Pending() == old(Pending()) && buffer[..] == old(buffer[..])
      ensures Flowing(old(receive)) ==> Flowing(receive) && (ok <==> old(Pending()) != [])
    {
      var r: int;
      if |requeue| > 0 {
        r := RequeueRead(buffer, at, 1);
      } else {
        r := Recv(buffer, at, 1);
      }
      if r <= 0 {
        SpliceNothing(old(buffer[..]), at);
        if r == 0 || r < -2 {
          connected := false;
        }
      }
      ok := r > 0;
    }

    /** cflare_socket_read_line: consumes a prefix of the pending bytes, up to and with the first
        newline if it finds one in time, and yields it without its newline and carriage returns. */
    method ReadLine(buffer: array<char>, len: nat) returns (gotLine: bool, n: nat, ghost used: nat)
      requires 0 < len <= buffer.Length
      modifies this`connected, this`requeue, this`network, this`receive, buffer
      ensures used <= |old(Pending())| && Pending() == old(Pending())[used..]
      ensures n < len
      ensures gotLine ==> used > 0 && '\n' !in old(Pending())[..used - 1] && old(Pending())[used - 1] == '\n'
      ensures !gotLine ==> '\n' !in old(Pending())[..used]
      ensures if old(connected)
        then buffer[n] == NUL && buffer[..n] == WithoutCr(old(Pending())[..if gotLine then used - 1 else used])
        else !gotLine && used == n == 0
      ensures old(connected) && Flowing(old(receive)) && !gotLine ==> used == len - 1 || Pending() == []
    {
      gotLine, n, used := false, 0, 0;
      if !connected {
        return;
      }
      ghost var p := Pending();
      var count := 0;
      while count < len - 1
        invariant count == used < len && used <= |p| && Pending() == p[used..]
        invariant buffer[..used] == p[..used] && '\n' !in p[..used]
        invariant connected && (Flowing(old(receive)) ==> Flowing(receive))
      {
        var ok := ReadByte(buffer, count);
        if !ok {
          break;
        }
        used := used + 1;
        assert buffer[..used] == p[..used];
        count := count + 1;
        if buffer[count - 1] == '\n' {
          gotLine := true;
          count := count - 1;
          break;
        }
      }
      n := SqueezeCr(buffer, count);
    }

    /** send: some of the bytes, none for now, or an error. */
    method Send(data: string) returns (r: int, writable: bool)
      modifies this`send, this`output
      ensures r <= |data|
      ensures output == old(output) + data[..if r > 0 then r else 0]
      ensures |send| < |old(send)| || (old(send) == [] && r == |data|)
    {
      writable := true;
      var reply := Passed(|data|);
      if send != [] {
        reply, send := send[0], send[1..];
      }
      match reply {
        case Broken => r, writable := -1, false;
        case WouldBlock(w) => r, writable := -1, w;
        case Passed(upto) =>
          r := if upto < |data| then upto else |data|;
          output := output + data[..r];
      }
    }

    /** cflare_socket_write: under any partial sends a success has emitted the bytes once and
        in order, and a failure a prefix of them, leaving the socket disconnected. */
    method Write(data: string) returns (ok: bool)
      modifies this`connected, this`send, this`output
      ensures ok ==> old(connected) && connected && output == old(output) + data
      ensures !ok ==> !connected && exists k :: 0 <= k <= |data| && output == old(output) + data[..k]
    {
      if !connected {
        assert output == old(output) + data[..0];
        return false;
      }
      var rest := data;
      ghost var k := 0;
      while true
        invariant connected && k <= |data| && rest == data[k..]
        invariant output == old(output) + data[..k]
        decreases |send|
      {
        var r, writable := Send(rest);
        ghost var m := if r > 0 then r else 0;
        assert data[..k] + rest[..m] == data[..k + m];
        k := k + m;
        if r == |rest| {
          assert data[..k] == data;
          return true;
        } else if r >= 0 {
          rest := rest[r..];
        } else if !writable {
          connected := false;
          return false;
        }
      }
    }
  }

  /** The in-place loop that drops every carriage return of a line; the write index never
      passes the read index. */
  method SqueezeCr(buffer: array<char>, len: nat) returns (dst: nat)
    requires len < buffer.Length
    modifies buffer
    ensures dst <= len && buffer[..dst] == WithoutCr(old(buffer[..len])) && buffer[dst] == NUL
  {
    dst := 0;
    ghost var was := buffer[..];
    for src := 0 to len
      invariant dst <= src
      invariant buffer[..dst] == WithoutCr(was[..src])
      invariant buffer[src..] == was[src..]
    {
      assert was[..src + 1][..src] == was[..src];
      assert buffer[src] == was[src];
      if buffer[src] != '\r' {
        buffer[dst] := buffer[src];
        dst := dst + 1;
      }
      assert buffer[src + 1..] == was[src + 1..];
    }
    buffer[dst] := NUL;
  }

  /** Taking `n` pushed-back bytes and then `k` network bytes takes one prefix. */
  lemma TakenTwice(was: string, between: string, now: string, off: nat, q: string, w: string, n: nat, k: nat)
    requires n <= |q| && k <= |w| && (n == |q| || k == 0) && off + n + k <= |was|
    requires between == Splice(was, off, q[..n]) && now == Splice(between, off + n, w[..k])
    ensures now == Splice(was, off, (q + w)[..n + k])
    ensures q[n..] + w[k..] == (q + w)[n + k..]
  {
    SpliceTwice(was, off, q[..n], w[..k]);
    assert (q + w)[..n + k] == q[..n] + w[..k];
  }

  /** memcpy. */
  method CopyInto(buffer: array<char>, off: nat, data: string)
    requires off + |data| <= buffer.Length
    modifies buffer
    ensures buffer[..] == Splice(old(buffer[..]), off, data)
  {
    for i := 0 to |data|
      invariant forall k | 0 <= k < buffer.Length && !(off <= k < off + i) :: buffer[k] == old(buffer[k])
      invariant forall k | off <= k < off + i :: buffer[k] == data[k - off]
    {
      buffer[off + i] := data[i];
    }
  }
}
