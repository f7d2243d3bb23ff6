/** The response half of request.c: header lines gathered in one fixed buffer, then sent with the
    status line before them and a blank line after. */
module Responses {
  import opened Options
  import opened Text
  import opened Numbers
  import opened Heads
  import opened HeadRoundTrip
  import opened Sockets
  import opened Contents

  const CAPACITY := 4096

  /** The lines, each ended by a newline alone. */
  function PrintLines(lines: seq<Header>): string {
    if lines == [] then [] else PrintLines(lines[..|lines| - 1]) + (LineText(lines[|lines| - 1]) + "\n")
  }

  function Line(name: string, value: string): Header {
    Header(name, value, false)
  }

  /** The lines that a run of calls leaves: each call's line is kept when it fits, with one byte to
      spare for the blank line, and dropped when it does not. */
  function Gathered(lines: seq<Header>, calls: seq<Header>): seq<Header>
    decreases |calls|
  {
    if calls == [] then lines
    else Gathered(if Fits(lines, calls[0]) then lines + [calls[0]] else lines, calls[1..])
  }

  predicate Fits(lines: seq<Header>, h: Header) {
    |PrintLines(lines)| + |LineText(h)| + 1 < CAPACITY
  }

  lemma PrintOneMore(lines: seq<Header>, h: Header)
    ensures PrintLines(lines + [h]) == PrintLines(lines) + (LineText(h) + "\n")
  {
    assert (lines + [h])[..|lines|] == lines;
  }

  /** A copy past the end of the buffer is out of room. */
  datatype Adding = Added | TooSmall | OutOfRoom

  datatype Sending = Delivered | Undelivered | Overflow

  class Response {
    const buffer: array<char>
    var pos: nat          // buffer_pos
    var sent: bool
    var keepalive: bool
    ghost var lines: seq<Header>

    /** Until it is sent, the buffer holds the accepted lines, in order, and has room for the
        newline that ends them. */
    ghost predicate Valid()
      reads this, buffer
    {
      buffer.Length == CAPACITY && pos <= CAPACITY && (!sent ==> Gathering())
    }

    ghost predicate Gathering()
      requires pos <= buffer.Length
      reads this, buffer
    {
      pos < CAPACITY && buffer[..pos] == PrintLines(lines)
    }

    constructor ()
      ensures Valid() && fresh(buffer) && lines == [] && !sent && keepalive
    {
      buffer := new char[CAPACITY](_ => NUL);
      pos, sent, keepalive, lines := 0, false, true, [];
    }

    /** cflare_response_header. The room is a size_t, so a buffer filled to its last byte, as
        sending may leave it, has no end of room. */
    method AddHeader(name: string, value: string) returns (r: Adding)
      requires Valid() && |name| + |value| + 3 < SIZE_MODULUS
      modifies this`pos, this`lines, buffer
      ensures Valid() && (sent ==> lines == old(lines))
      ensures r == OutOfRoom <==> old(pos) == CAPACITY
      ensures r == Added <==> old(pos) + |LineText(Line(name, value))| + 1 < CAPACITY
      ensures !sent ==> lines == Gathered(old(lines), [Line(name, value)])
      ensures !sent ==> (r == Added <==> Fits(old(lines), Line(name, value)))
      ensures buffer[..pos] == old(buffer[..pos]) + if r == Added then LineText(Line(name, value)) + "\n" else []
    {
      var req := |name| + |value| + 3;
      GatheredOnce(lines, Line(name, value));
      if req > Less(CAPACITY - pos, 1) {
        return TooSmall;
      }
      if pos + req > CAPACITY {
        return OutOfRoom;
      }
      LineIsAdded(buffer[..], pos, lines, Line(name, value));
      CopyInto(buffer, pos, name + ": " + value + "\n");
      pos, lines := pos + req, if sent then lines else lines + [Line(name, value)];
      r := Added;
    }

    /** The headers every response gets, as far as they still fit. */
    method AddRequired(date: string)
      requires Valid() && !sent && |date| < CAPACITY
      modifies this`pos, this`lines, buffer
      ensures Valid() && lines == Gathered(old(lines), Required(date, keepalive))
    {
      ghost var l0, state := lines, if keepalive then "keep-alive" else "close";
      var r := AddHeader("Server", "cflare");
      r := AddHeader("Date", date);
      r := AddHeader("Connection", if keepalive then "keep-alive" else "close");
      GatheredThrice(l0, Line("Server", "cflare"), Line("Date", date), Line("Connection", state));
    }

    /** send_headers: one response only; the status line, the lines gathered, a blank line. */
    method SendHeaders(socket: Socket, statusLine: string, date: string, requestKeepalive: bool, unread: nat)
      returns (ok: bool)
      requires Valid() && |date| < CAPACITY
      modifies this`pos, this`lines, this`sent, this`keepalive, buffer, socket`connected, socket`send, socket`output
      ensures Valid() && sent
      ensures old(sent) ==>
        && !ok && socket.output == old(socket.output)
        && lines == old(lines) && pos == old(pos) && buffer[..] == old(buffer[..])
      ensures !old(sent) ==> keepalive == (requestKeepalive && old(keepalive) && unread == 0)
      ensures !old(sent) ==> lines == Gathered(old(lines), Required(date, keepalive))
      ensures !old(sent) && |PrintLines(old(lines))| + |date| + 45 < 4096 ==> Announces(lines, date, keepalive)
      ensures ok ==> !old(sent) && socket.output == old(socket.output) + (statusLine + (PrintLines(lines) + "\n"))
      ensures ok ==> pos == |PrintLines(lines)| + 1
      ensures old(socket.output) <= socket.output <= old(socket.output) + (statusLine + (PrintLines(lines) + "\n"))
    {
      if sent {
        return false;
      }
      keepalive := requestKeepalive && keepalive && unread == 0;
      AddRequired(date);
      sent := true;
      RequiredAnnounce(old(lines), date, keepalive);
      ghost var before, text := socket.output, PrintLines(lines) + "\n";
      ok := socket.Write(statusLine);
      if ok {
        ok := SendLines(socket);
      }
      AppendTwice(before, statusLine, text, socket.output);
    }

    /** The newline after the lines always fits. */
    method SendLines(socket: Socket) returns (ok: bool)
      requires buffer.Length == CAPACITY && pos <= buffer.Length && Gathering()
      modifies this`pos, buffer, socket`connected, socket`send, socket`output
      ensures pos == |PrintLines(lines)| + 1 <= CAPACITY
      ensures ok ==> socket.output == old(socket.output) + (PrintLines(lines) + "\n")
      ensures old(socket.output) <= socket.output <= old(socket.output) + (PrintLines(lines) + "\n")
    {
      ghost var text := PrintLines(lines) + "\n";
      buffer[pos] := '\n';
      pos := pos + 1;
      assert buffer[..pos] == text;
      ok := socket.Write(buffer[..pos]);
    }

    /** cflare_response_data: a whole response, with its body and the body's length. A second one
        emits nothing; but if the first has filled the buffer to its last byte, the length line of
        the second is copied past its end. */
    method SendData(socket: Socket, data: string, statusLine: string, date: string, requestKeepalive: bool, unread: nat)
      returns (r: Sending)
      requires Valid() && |date| < CAPACITY && |Decimal(|data|)| < 32
      modifies this`pos, this`lines, this`sent, this`keepalive, buffer, socket`connected, socket`send, socket`output
      ensures r == Overflow <==> old(pos) == CAPACITY
      ensures old(sent) ==> r != Delivered && socket.output == old(socket.output) && lines == old(lines)
      ensures Valid() && sent
      ensures !old(sent) ==> keepalive == (requestKeepalive && old(keepalive) && unread == 0)
      ensures !old(sent) ==> lines == AllLines(old(lines), |data|, date, keepalive)
      ensures !old(sent) && |PrintLines(old(lines))| + |Decimal(|data|)| + |date| + 62 < 4096 ==>
        AnnouncesBody(lines, |data|, date, keepalive)
      ensures r == Delivered ==> socket.output == old(socket.output) + (statusLine + (PrintLines(lines) + "\n") + data)
    {
      ghost var lines0 := lines;
      var added := AddHeader("Content-Length", Decimal(|data|));
      if added == OutOfRoom {
        return Overflow;
      }
      ghost var before := socket.output;
      var ok := SendHeaders(socket, statusLine, date, requestKeepalive, unread);
      LengthIsAnnounced(lines0, |data|, date, keepalive);
      if ok {
        AppendTwice(before, statusLine + (PrintLines(lines) + "\n"), data, []);
        ok := socket.Write(data);
      }
      r := if ok then Delivered else Undelivered;
    }
  }

  /** What the lines say last under the names that every response has. */
  predicate Announces(lines: seq<Header>, date: string, keepalive: bool) {
    && LastValue(lines, "server") == Some("cflare")
    && LastValue(lines, "date") == Some(date)
    && LastValue(lines, "connection") == Some(if keepalive then "keep-alive" else "close")
  }

  predicate AnnouncesBody(lines: seq<Header>, length: nat, date: string, keepalive: bool) {
    Announces(lines, date, keepalive) && LastValue(lines, "content-length") == Some(Decimal(length))
  }

  function Required(date: string, keepalive: bool): seq<Header> {
    [Line("Server", "cflare"), Line("Date", date), Line("Connection", if keepalive then "keep-alive" else "close")]
  }

  /** The lines of a response with a body. */
  function AllLines(lines: seq<Header>, length: nat, date: string, keepalive: bool): seq<Header> {
    Gathered(Gathered(lines, [Line("Content-Length", Decimal(length))]), Required(date, keepalive))
  }

  lemma LineIsAdded(b: string, pos: nat, lines: seq<Header>, h: Header)
    requires pos + |LineText(h)| + 1 <= |b|
    ensures Splice(b, pos, LineText(h) + "\n")[..pos + |LineText(h)| + 1] == b[..pos] + (LineText(h) + "\n")
    ensures PrintLines(lines + [h]) == PrintLines(lines) + (LineText(h) + "\n")
  {
    PrintOneMore(lines, h);
  }

  lemma AppendTwice(before: string, a: string, b: string, now: string)
    ensures before + a + b == before + (a + b)
    ensures now == before + a + b <==> now == before + (a + b)
    ensures before + a <= now <= before + a + b ==> before <= now <= before + (a + b)
    ensures before <= now <= before + a ==> before <= now <= before + (a + b)
  {
    assert before + a + b == before + (a + b);
  }

  lemma GatheredThrice(lines: seq<Header>, a: Header, b: Header, c: Header)
    ensures Gathered(lines, [a, b, c]) == Gathered(Gathered(Gathered(lines, [a]), [b]), [c])
  {
    assert [a, b, c][1..] == [b, c] && [b, c][1..] == [c];
  }

  // What a run of calls leaves, and what a client reads.

  lemma {:induction false} PrintAppend(a: seq<Header>, b: seq<Header>)
    ensures PrintLines(a + b) == PrintLines(a) + PrintLines(b)
    decreases |b|
  {
    if b == [] {
      assert a + b == a;
    } else {
      var front, h := b[..|b| - 1], b[|b| - 1];
      assert a + b == a + front + [h] && b == front + [h];
      PrintAppend(a, front);
      PrintOneMore(a + front, h);
      PrintOneMore(front, h);
      Regrouped(PrintLines(a), PrintLines(front), LineText(h) + "\n");
    }
  }

  /** The lines never fill the buffer, and none is dropped unless they would not all fit. */
  lemma {:induction false} GatheredFits(lines: seq<Header>, calls: seq<Header>)
    requires |PrintLines(lines)| < CAPACITY
    ensures |PrintLines(Gathered(lines, calls))| < CAPACITY
    ensures Gathered(lines, calls) == lines + calls <==> |PrintLines(lines + calls)| < 4096
    ensures |Gathered(lines, calls)| <= |lines| + |calls|
    decreases |calls|
  {
    if calls == [] {
      assert lines + calls == lines;
    } else {
      var h := calls[0];
      PrintOneMore(lines, h);
      assert lines + [h] + calls[1..] == lines + calls;
      PrintAppend(lines + [h], calls[1..]);
      GatheredFits(if Fits(lines, h) then lines + [h] else lines, calls[1..]);
    }
  }

  predicate OnlyLf(lines: seq<Header>) {
    forall i | 0 <= i < |lines| :: !lines[i].crlf
  }

  /** With the blank line they are what a client would have printed. */
  lemma {:induction false} LinesAreHeaders(lines: seq<Header>)
    requires OnlyLf(lines)
    ensures PrintHeaders(lines, false) == PrintLines(lines) + "\n"
    decreases |lines|
  {
    if lines != [] {
      var h, rest := lines[0], lines[1..];
      LinesAreHeaders(rest);
      assert lines == [h] + rest;
      PrintFirst(h, rest);
      Nested(LineText(h), "\n", PrintLines(rest), "\n");
    }
  }

  lemma PrintFirst(h: Header, rest: seq<Header>)
    ensures PrintLines([h] + rest) == LineText(h) + "\n" + PrintLines(rest)
  {
    PrintAppend([h], rest);
    PrintOneMore([], h);
    assert [] + [h] == [h];
  }

  lemma Nested(a: string, b: string, c: string, d: string)
    ensures a + b + (c + d) == a + b + c + d
  {
  }

  /** The request parser's header loop reads the same list back, and leaves what follows. */
  lemma LinesReadBack(known: set<string>, round: int -> int, lines: seq<Header>, more: string, beyond: string)
    requires GoodHeaders(known, lines) && OnlyLf(lines) && IsDouble(round)
    ensures ReadHeaders(known, round, PrintLines(lines) + "\n" + more, beyond, NO_NOTES)
      == Done(Meant(known, lines), more)
  {
    NotesAreMeant(known, round, lines);
    HeadersRead(known, round, lines, false, more, beyond, NO_NOTES);
    LinesAreHeaders(lines);
  }

  /** When every name is known, that is every line, in order, with its name in lower case. */
  lemma {:induction false} AllKept(known: set<string>, lines: seq<Header>)
    requires forall i | 0 <= i < |lines| :: Lower(lines[i].name) in known
    ensures Kept(known, lines)
      == seq(|lines|, i requires 0 <= i < |lines| => Field(Lower(lines[i].name), lines[i].value, |lines[i].value|))
  {
    if lines != [] {
      AllKept(known, lines[..|lines| - 1]);
    }
  }

  lemma RequiredNames(date: string, keepalive: bool)
    ensures Lower("Content-Length") == "content-length" && Lower("Server") == "server"
    ensures Lower("Date") == "date" && Lower("Connection") == "connection"
  {
  }

  lemma LastOfMore(lines: seq<Header>, h: Header, name: string)
    ensures LastValue(lines + [h], name) == if Lower(h.name) == name then Some(h.value) else LastValue(lines, name)
  {
    assert (lines + [h])[..|lines|] == lines;
  }

  /** Lines with other names do not hide the value. */
  lemma {:induction false} LastOfGathered(lines: seq<Header>, calls: seq<Header>, name: string)
    requires forall i | 0 <= i < |calls| :: Lower(calls[i].name) != name
    ensures LastValue(Gathered(lines, calls), name) == LastValue(lines, name)
    decreases |calls|
  {
    if calls != [] {
      LastOfMore(lines, calls[0], name);
      LastOfGathered(if Fits(lines, calls[0]) then lines + [calls[0]] else lines, calls[1..], name);
    }
  }

  lemma StatedLength(lines: seq<Header>, length: nat, date: string, keepalive: bool)
    ensures var h := Line("Content-Length", Decimal(length));
      LastValue(AllLines(lines, length, date, keepalive), "content-length")
        == if Fits(lines, h) then Some(h.value) else LastValue(lines, "content-length")
  {
    var h := Line("Content-Length", Decimal(length));
    RequiredNames(date, keepalive);
    LastOfGathered(Gathered(lines, [h]), Required(date, keepalive), "content-length");
    LastOfMore(lines, h, "content-length");
    GatheredOnce(lines, h);
  }

  lemma GatheredOnce(lines: seq<Header>, h: Header)
    ensures Gathered(lines, [h]) == if Fits(lines, h) then lines + [h] else lines
  {
  }

  /** A client that reads the response's headers finds the body after them, and its length in
      them if and only if the line that states it still fitted. */
  lemma ResponseIsFramed(known: set<string>, round: int -> int, lines: seq<Header>, data: string, date: string,
                         keepalive: bool, beyond: string)
    requires LastValue(lines, "content-length") == None && 0 < |data| < EXACT && IsDouble(round)
    requires var all := AllLines(lines, |data|, date, keepalive); GoodHeaders(known, all) && OnlyLf(all)
    ensures var all := AllLines(lines, |data|, date, keepalive);
      && ReadHeaders(known, round, PrintLines(all) + "\n" + data, beyond, NO_NOTES) == Done(Meant(known, all), data)
      && (Meant(known, all).contentLength == |data| <==> Fits(lines, Line("Content-Length", Decimal(|data|))))
  {
    LinesReadBack(known, round, AllLines(lines, |data|, date, keepalive), data, beyond);
    StatedLength(lines, |data|, date, keepalive);
    DecimalRoundTrip(|data|);
  }

  lemma RequiredFit(lines: seq<Header>, date: string, keepalive: bool)
    requires |PrintLines(lines)| + |date| + 45 < CAPACITY
    ensures Gathered(lines, Required(date, keepalive)) == lines + Required(date, keepalive)
  {
    var a, b := Line("Server", "cflare"), Line("Date", date);
    var c := Line("Connection", if keepalive then "keep-alive" else "close");
    PrintOneMore(lines, a);
    PrintOneMore(lines + [a], b);
    PrintOneMore(lines + [a] + [b], c);
    assert lines + Required(date, keepalive) == lines + [a] + [b] + [c];
    assert |LineText(a)| == 14 && |LineText(b)| == 6 + |date| && |LineText(c)| <= 22;
    GatheredFits(lines, Required(date, keepalive));
  }

  /** The lines that every response gets, when there is room for them. */
  lemma RequiredAnnounce(lines: seq<Header>, date: string, keepalive: bool)
    ensures |PrintLines(lines)| + |date| + 45 < CAPACITY ==>
      Announces(Gathered(lines, Required(date, keepalive)), date, keepalive)
  {
    if |PrintLines(lines)| + |date| + 45 < CAPACITY {
      var a, b := Line("Server", "cflare"), Line("Date", date);
      var c := Line("Connection", if keepalive then "keep-alive" else "close");
      RequiredFit(lines, date, keepalive);
      assert lines + Required(date, keepalive) == lines + [a] + [b] + [c];
      RequiredNames(date, keepalive);
      OtherNames();
      ThreeAnnounce(lines, a, b, c);
    }
  }

  lemma ThreeAnnounce(lines: seq<Header>, a: Header, b: Header, c: Header)
    requires Lower(a.name) == "server" && Lower(b.name) == "date" && Lower(c.name) == "connection"
    requires "server" != "date" && "server" != "connection" && "date" != "connection"
    ensures var all := lines + [a] + [b] + [c];
      && LastValue(all, "server") == Some(a.value) && LastValue(all, "date") == Some(b.value)
      && LastValue(all, "connection") == Some(c.value)
  {
    LastOfMore(lines, a, "server");
    LastOfMore(lines + [a], b, "server");
    LastOfMore(lines + [a] + [b], c, "server");
    LastOfMore(lines + [a], b, "date");
    LastOfMore(lines + [a] + [b], c, "date");
    LastOfMore(lines + [a] + [b], c, "connection");
  }

  lemma OtherNames()
    ensures "server" != "date" && "server" != "connection" && "date" != "connection"
  {
    assert "server"[0] == 's' && "date"[0] == 'd' && "connection"[0] == 'c';
  }

  /** With a body there is its length too. */
  lemma LengthIsAnnounced(lines: seq<Header>, length: nat, date: string, keepalive: bool)
    ensures |PrintLines(lines)| + |Decimal(length)| + |date| + 62 < CAPACITY ==>
      AnnouncesBody(AllLines(lines, length, date, keepalive), length, date, keepalive)
  {
    var h := Line("Content-Length", Decimal(length));
    if |PrintLines(lines)| + |Decimal(length)| + |date| + 62 < CAPACITY {
      PrintOneMore(lines, h);
      GatheredOnce(lines, h);
      assert |LineText(h)| == 16 + |Decimal(length)|;
      RequiredAnnounce(lines + [h], date, keepalive);
      StatedLength(lines, length, date, keepalive);
    }
  }

  lemma KeepAliveIsTold()
    ensures Contains("keep-alive", "keep-alive") && !Contains("close", "keep-alive")
  {
    assert "keep-alive"[0..] == "keep-alive";
  }

  /** A client that reads these lines is told whether the connection stays open. */
  lemma ClientIsTold(known: set<string>, round: int -> int, lines: seq<Header>, date: string, keepalive: bool,
                     more: string, beyond: string)
    requires GoodHeaders(known, lines) && OnlyLf(lines) && IsDouble(round) && Announces(lines, date, keepalive)
    ensures var read := ReadHeaders(known, round, PrintLines(lines) + "\n" + more, beyond, NO_NOTES);
      read.Done? && read.rest == more && read.notes.keepalive == keepalive
  {
    LinesReadBack(known, round, lines, more, beyond);
    KeepAliveIsTold();
  }
}
