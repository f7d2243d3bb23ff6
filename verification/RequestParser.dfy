/** The in-place parser of request.c: every field is left in the buffer where it was
    received, with a NUL written over the delimiter after it. */
module RequestParser {
  import opened Options
  import opened Text
  import opened Numbers
  import opened Heads
  import opened RequestReader

  /** Takes the first line off the unparsed bytes and ends it with a NUL, over its newline or
      over the carriage return before it. The byte before the line cannot be mistaken for one. */
  method CutLine(req: RequestBuffer) returns (ok: bool, start: nat, len: nat)
    requires req.position + req.nbytes <= req.buffer.Length
    requires req.position > 0 && req.buffer[req.position - 1] != '\r'
    modifies req, req.buffer
    ensures start == old(req.position)
    ensures ok <==> FirstOf(old(req.Window()), '\n') >= 0
    ensures !ok ==>
      req.position == old(req.position) && req.nbytes == old(req.nbytes) && req.buffer[..] == old(req.buffer[..])
    ensures ok ==>
      var w := old(req.Window()); var p := FirstOf(w, '\n');
      && len <= p && w[..len] == FirstLine(w)
      && req.position == start + p + 1 && req.nbytes == old(req.nbytes) - p - 1
      && req.buffer[..] == old(req.buffer[..])[start + len := NUL]
      && req.buffer[req.position - 1] != '\r'
  {
    start, len := req.position, 0;
    ghost var w := req.Window();
    assert forall k | 0 <= k < |w| :: w[k] == req.buffer[start + k];
    var pos := FirstIndex(req.buffer, req.position, req.nbytes, '\n');
    if pos < 0 {
      return false, start, 0;
    }
    if pos > 0 {
      assert w[..pos][pos - 1] == w[pos - 1] == req.buffer[start + (pos - 1)];
    }
    req.nbytes := req.nbytes - (pos + 1);
    req.position := req.position + pos + 1;
    if req.buffer[start + pos - 1] == '\r' {
      assert ChopCr(w[..pos]) == w[..pos - 1];
      req.buffer[start + pos - 1] := NUL;
      len := pos - 1;
    } else {
      assert ChopCr(w[..pos]) == w[..pos];
      req.buffer[start + pos] := NUL;
      len := pos;
    }
    ok := true;
  }

  /** Reading a C string out of the buffer. */
  method ReadCStr(buffer: array<char>, off: nat) returns (s: string)
    requires off <= buffer.Length
    ensures s == CStr(buffer[off..])
  {
    ghost var all := buffer[off..];
    var i := off;
    while i < buffer.Length && buffer[i] != NUL
      invariant off <= i <= buffer.Length
      invariant forall k | 0 <= k < i - off :: all[k] != NUL
    {
      i := i + 1;
    }
    s := buffer[off..i];
    if i < buffer.Length {
      FirstOfIs(all, NUL, i - off);
    } else {
      FoundIfThere(all, NUL);
    }
  }

  /** What the parser keeps of the headers: pointers where the meaning has text. */
  datatype Refs = Refs(headers: seq<HeaderRef>, host: Option<Slice>, keepalive: bool, contentLength: int)

  /** The slice is a C string in the buffer, with this text, that ends before `limit`. Of a value
      whose length has wrapped around nothing is said. */
  ghost predicate Reads(b: string, s: Slice, text: string, limit: nat) {
    s.len < SIZE_MODULUS - 1 ==>
      s.off + s.len < limit <= |b| && b[s.off..s.off + s.len] == text && b[s.off + s.len] == NUL
  }

  /** The slice is the value of one of the headers. */
  ghost predicate IsValue(headers: seq<HeaderRef>, value: Slice) {
    exists i | 0 <= i < |headers| :: headers[i].value == value
  }

  lemma StaysValue(headers: seq<HeaderRef>, h: HeaderRef, value: Slice)
    requires IsValue(headers, value) || h.value == value
    ensures IsValue(headers + [h], value)
  {
    if IsValue(headers, value) {
      var i :| 0 <= i < |headers| && headers[i].value == value;
      assert (headers + [h])[i] == headers[i];
    } else {
      assert (headers + [h])[|headers|] == h;
    }
  }

  ghost predicate RefersTo(b: string, refs: Refs, notes: Notes, limit: nat) {
    && |refs.headers| == |notes.headers|
    && (forall i | 0 <= i < |refs.headers| ::
          && refs.headers[i].name == notes.headers[i].name
          && refs.headers[i].value.len == notes.headers[i].length
          && Reads(b, refs.headers[i].value, notes.headers[i].value, limit))
    && (refs.host.Some? <==> notes.host.Some?)
    && (refs.host.Some? ==>
          Reads(b, refs.host.value, notes.host.value, limit) && IsValue(refs.headers, refs.host.value))
    && refs.keepalive == notes.keepalive && refs.contentLength == notes.contentLength
  }

  /** Bytes from `limit` on do not matter to what has been recorded. */
  lemma RefersToStays(b: string, b': string, refs: Refs, notes: Notes, limit: nat, limit': nat)
    requires RefersTo(b, refs, notes, limit) && limit <= limit' <= |b'| == |b| && b[..limit] == b'[..limit]
    ensures RefersTo(b', refs, notes, limit')
  {
    forall s: Slice, text | Reads(b, s, text, limit) ensures Reads(b', s, text, limit') {
      ReadsStays(b, b', s, text, limit, limit');
    }
  }

  lemma ReadsStays(b: string, b': string, s: Slice, text: string, limit: nat, limit': nat)
    requires Reads(b, s, text, limit) && limit <= limit' <= |b'| == |b| && b[..limit] == b'[..limit]
    ensures Reads(b', s, text, limit')
  {
    if s.len < SIZE_MODULUS - 1 {
      assert b[..limit][s.off..s.off + s.len] == b[s.off..s.off + s.len];
      assert b'[..limit][s.off..s.off + s.len] == b'[s.off..s.off + s.len];
      assert b[..limit][s.off + s.len] == b'[..limit][s.off + s.len];
    }
  }

  datatype Step = Proceed | Refuse(status: nat) | Crash

  /** size_t arithmetic on sums and differences that are off by less than one turn. */
  function Wrapped(x: int): int {
    if x < 0 then x + SIZE_MODULUS else if x >= SIZE_MODULUS then x - SIZE_MODULUS else x
  }

  /** The value of a header line that does not end at its colon. */
  lemma ValueInLine(b: string, start: nat, len: nat, col: nat, line: string)
    requires start + len < |b| && col + 2 <= len == |line| && b[start..start + len] == line[col := NUL]
    requires b[start + len] == NUL
    ensures var off := start + col + 2;
      && b[off..start + len] == line[col + 2..] && Reads(b, Slice(off, len - col - 2), line[col + 2..], start + len + 1)
      && CStr(b[off..]) == CStr(line[col + 2..])
  {
    assert b[start + col + 2..start + len] == b[start..start + len][col + 2..] == line[col + 2..];
    StringInPlace(b, start + col + 2, len - col - 2);
  }

  /** What stands behind a line that ends at its colon. */
  lemma ValueBehind(b: string, off: nat, after: string)
    requires off <= |b| && b[off..] == after
    ensures CStr(b[off..]) == CStr(CStr(after))
  {
    CStrTwice(after);
  }

  /** The value pointer and length, and the C string that the pointer stands for. */
  lemma ValueInPlace(b: string, start: nat, len: nat, col: nat, line: string, after: string)
    requires start + len < |b| <= MAX_LENGTH && col < len == |line| && b[start + len] == NUL
    requires b[start..start + len] == line[col := NUL] && b[start + len + 1..] == after
    ensures var off, n, f := start + col + 2, Wrapped(len - col - 2), ValueOf(line, col, after);
      && n == f.length && Wrapped(off + n) == start + len && off <= |b|
      && Reads(b, Slice(off, n), f.value, start + len + 1) && CStr(b[off..]) == CStr(f.value)
  {
    if col + 2 <= len {
      ValueInLine(b, start, len, col, line);
    } else {
      ValueBehind(b, start + len + 1, after);
    }
  }

  lemma KeyInPlace(b: string, start: nat, len: nat, col: nat, line: string)
    requires start + len < |b| && col < len == |line| && b[start..start + len] == line[col := NUL]
    ensures CStr(b[start..]) == CStr(line[..col])
  {
    assert b[start..start + len][col] == b[start + col];
    assert b[start..start + col] == b[start..start + len][..col] == line[..col];
    StringInPlace(b, start, col);
  }

  /** A C string that ends by a NUL at `off + n`. */
  lemma StringInPlace(b: string, off: nat, n: nat)
    requires off + n < |b| && b[off + n] == NUL
    ensures CStr(b[off..]) == CStr(b[off..off + n])
  {
    assert b[off..][..n] == b[off..off + n];
    CStrStops(b[off..], n);
  }

  /** The step taken is the one the meaning calls for. */
  ghost predicate Answers(n: Noting, step: Step, b: string, refs: Refs, limit: nat) {
    match n
    case Noted(notes) => step == Proceed && RefersTo(b, refs, notes, limit)
    case NotNoted(status) => step == Refuse(status)
    case NoteCrashed => step == Crash
  }

  lemma RefsGrow(b: string, refs: Refs, notes: Notes, name: string, value: Slice, f: Field, limit: nat)
    requires RefersTo(b, refs, notes, limit) && value.len == f.length && Reads(b, value, f.value, limit)
    ensures var refs' := refs.(headers := refs.headers + [HeaderRef(name, value)]);
      && RefersTo(b, refs', notes.(headers := notes.headers + [f.(name := name)]), limit)
      && IsValue(refs'.headers, value)
  {
    if refs.host.Some? {
      StaysValue(refs.headers, HeaderRef(name, value), refs.host.value);
    }
    StaysValue(refs.headers, HeaderRef(name, value), value);
  }

  /** Recording a header that is kept. */
  method Record(buffer: array<char>, name: string, value: Slice, known: set<string>, round: int -> int,
                refs: Refs, ghost notes: Notes, ghost key: string, ghost f: Field, ghost limit: nat)
    returns (step: Step, refs': Refs)
    requires RefersTo(buffer[..], refs, notes, limit)
    requires name == Lower(CStr(key)) && value.len == f.length && Reads(buffer[..], value, f.value, limit)
    requires value.off <= buffer.Length && CStr(buffer[value.off..]) == CStr(f.value)
    ensures Answers(Note(known, round, key, f, notes), step, buffer[..], refs', limit)
  {
    if name !in known {
      return Proceed, refs;
    }
    if |refs.headers| >= MAX_HEADERS {
      return Refuse(413), refs;
    }
    refs' := refs.(headers := refs.headers + [HeaderRef(name, value)]);
    RefsGrow(buffer[..], refs, notes, name, value, f, limit);
    if name == "host" {
      refs' := refs'.(host := Some(value));
    } else if name == "connection" {
      var text := ReadCStr(buffer, value.off);
      refs' := refs'.(keepalive := Contains(text, "keep-alive"));
    } else if name == "content-length" {
      var text := ReadCStr(buffer, value.off);
      var r := ToInteger(text, round);
      match r {
        case Number(n) => refs' := refs'.(contentLength := n);
        case NotANumber => return Refuse(400), refs;
        case AssertionFails => return Crash, refs;
      }
    }
    return Proceed, refs';
  }

  /** Ends the key at its colon, points at the value and ends that too. */
  method SplitHeader(buffer: array<char>, start: nat, len: nat, col: nat,
                     ghost refs: Refs, ghost notes: Notes, ghost line: string, ghost after: string)
    returns (value: Slice)
    requires start + len < buffer.Length <= MAX_LENGTH && col < len == |line| && line[col] == ':'
    requires buffer[start..start + len] == line && buffer[start + len] == NUL && buffer[start + len + 1..] == after
    requires RefersTo(buffer[..], refs, notes, start)
    modifies buffer
    ensures var f := ValueOf(line, col, after);
      && value.len == f.length && value.off <= buffer.Length
      && Reads(buffer[..], value, f.value, start + len + 1)
      && CStr(buffer[value.off..]) == CStr(f.value)
      && CStr(buffer[start..]) == CStr(line[..col])
    ensures RefersTo(buffer[..], refs, notes, start + len + 1)
    ensures buffer[start + len..] == old(buffer[start + len..]) && buffer[..][..start] == old(buffer[..])[..start]
  {
    ghost var was := buffer[..];
    buffer[start + col] := NUL;
    value := Slice(start + col + 2, Wrapped(len - col - 2));
    assert Wrapped(value.off + value.len) == start + len;
    buffer[Wrapped(value.off + value.len)] := NUL;
    ghost var b := buffer[..];
    assert b == was[start + col := NUL];
    assert was[start..start + len] == line && was[start + len + 1..] == after;
    Split(was, start, len, col, line, after);
    KeyInPlace(b, start, len, col, line);
    ValueInPlace(b, start, len, col, line, after);
    assert buffer[value.off..] == b[value.off..] && buffer[start..] == b[start..];
    RefersToStays(was, b, refs, notes, start, start + len + 1);
  }

  lemma Split(was: string, start: nat, len: nat, col: nat, line: string, after: string)
    requires start + len < |was| && col < len == |line|
    requires was[start..start + len] == line && was[start + len + 1..] == after
    ensures var b := was[start + col := NUL];
      b[start..start + len] == line[col := NUL] && b[start + len + 1..] == after && b[..start] == was[..start]
  {
  }

  /** Where the name ends, or -1 for a line that is refused. */
  method FindColon(buffer: array<char>, start: nat, len: nat, ghost line: string) returns (col: int)
    requires start + len <= buffer.Length && 0 < len && buffer[start..start + len] == line
    ensures col == if line[0] == ' ' || line[0] == '\t' then -1 else FirstOf(line, ':')
  {
    assert line[0] == buffer[start];
    if buffer[start] == ' ' || buffer[start] == '\t' {
      return -1;
    }
    col := FirstIndex(buffer, start, len, ':');
  }

  /** One header line that is not blank, already cut at `start`. */
  method TakeHeader(buffer: array<char>, start: nat, len: nat, known: set<string>, round: int -> int,
                    refs: Refs, ghost notes: Notes, ghost line: string, ghost after: string)
    returns (step: Step, refs': Refs)
    requires start + len < buffer.Length <= MAX_LENGTH && 0 < len == |line|
    requires buffer[start..start + len] == line && buffer[start + len] == NUL && buffer[start + len + 1..] == after
    requires RefersTo(buffer[..], refs, notes, start)
    modifies buffer
    ensures Answers(NoteText(known, round, line, after, notes), step, buffer[..], refs', start + len + 1)
    ensures buffer[start + len..] == old(buffer[start + len..]) && buffer[..][..start] == old(buffer[..])[..start]
  {
    var col := FindColon(buffer, start, len, line);
    if col < 0 {
      return Refuse(400), refs;
    }
    var value := SplitHeader(buffer, start, len, col, refs, notes, line, after);
    var key := ReadCStr(buffer, start);
    ghost var f := ValueOf(line, col, after);
    step, refs' := Record(buffer, Lower(key), value, known, round, refs, notes, line[..col], f, start + len + 1);
    NotesColon(known, round, line, after, notes, col);
  }

  lemma NotesColon(known: set<string>, round: int -> int, line: string, after: string, notes: Notes, col: nat)
    requires line != [] && col == FirstOf(line, ':') && line[0] != ' ' && line[0] != '\t'
    ensures NoteText(known, round, line, after, notes)
      == Note(known, round, line[..col], ValueOf(line, col, after), notes)
  {
  }

  /** The parser stands at the start of a line, with everything from there on as received. */
  ghost predicate AtLine(req: RequestBuffer)
    reads req, req.buffer
  {
    && req.buffer.Length == MAX_LENGTH && 0 < req.position
    && req.position + req.nbytes <= req.buffer.Length
    && req.buffer[req.position - 1] != '\r'
  }

  /** The bytes after the ones received. */
  ghost function Beyond(req: RequestBuffer): string
    requires req.position + req.nbytes <= req.buffer.Length
    reads req, req.buffer
  {
    req.buffer[req.position + req.nbytes..]
  }

  /** What a NUL at `start + len` leaves of the bytes around it. */
  lemma CutFacts(was: string, start: nat, n: nat, len: nat, p: nat)
    requires start + n <= |was| && len <= p < n
    ensures var b := was[start + len := NUL]; var tail := was[start..start + n];
      && b[start..start + len] == tail[..len]
      && b[start + len + 1..] == (tail + was[start + n..])[len + 1..]
      && b[start + p + 1..start + n] == tail[p + 1..]
      && b[start + n..] == was[start + n..]
      && b[..start] == was[..start]
  {
    assert was[start..start + n] + was[start + n..] == was[start..];
  }

  /** The first line of `tail` has been cut off at `start`, and nothing else has changed. */
  ghost predicate IsCut(req: RequestBuffer, start: nat, len: nat, tail: string, beyond: string)
    requires FirstOf(tail, '\n') >= 0
    reads req, req.buffer
  {
    var line := FirstLine(tail);
    && AtLine(req) && start + len < req.position && len == |line|
    && req.buffer[start..start + len] == line && req.buffer[start + len] == NUL
    && req.buffer[start + len + 1..] == (tail + beyond)[len + 1..]
    && req.Window() == tail[FirstOf(tail, '\n') + 1..] && Beyond(req) == beyond
  }

  /** Cutting a line, with what it leaves alone. */
  method CutHeaderLine(req: RequestBuffer, ghost refs: Refs, ghost notes: Notes)
    returns (ok: bool, start: nat, len: nat)
    requires AtLine(req) && RefersTo(req.buffer[..], refs, notes, req.position)
    modifies req, req.buffer
    ensures start == old(req.position)
    ensures ok <==> FirstOf(old(req.Window()), '\n') >= 0
    ensures ok ==> IsCut(req, start, len, old(req.Window()), old(Beyond(req)))
    ensures ok ==> RefersTo(req.buffer[..], refs, notes, start)
    ensures start <= req.position && req.buffer[..][..start] == old(req.buffer[..])[..start]
  {
    ghost var was, n := req.buffer[..], req.nbytes;
    ghost var tail := req.Window();
    ok, start, len := CutLine(req);
    if ok {
      ghost var p := FirstOf(tail, '\n');
      CutFacts(was, start, n, len, p);
      ghost var b := req.buffer[..];
      RefersToStays(was, b, refs, notes, start, start);
      assert req.buffer[start..start + len] == b[start..start + len];
      assert req.buffer[start + len + 1..] == b[start + len + 1..];
      assert req.Window() == b[start + p + 1..start + n];
      assert Beyond(req) == b[start + n..];
    }
  }

  /** The turn was taken over `tail`: what it found and what it left. */
  ghost predicate TurnIs(req: RequestBuffer, tail: string, beyond: string, n: Noting, step: Step, refs: Refs)
    requires FirstOf(tail, '\n') >= 0
    reads req, req.buffer
  {
    && AtLine(req) && Beyond(req) == beyond
    && req.Window() == tail[FirstOf(tail, '\n') + 1..]
    && Answers(n, step, req.buffer[..], refs, req.position)
  }

  /** One turn of the header loop. A blank line adds nothing and ends it. */
  method HeaderTurn(req: RequestBuffer, known: set<string>, round: int -> int, refs: Refs, ghost notes: Notes)
    returns (step: Step, blank: bool, refs': Refs)
    requires AtLine(req) && RefersTo(req.buffer[..], refs, notes, req.position)
    modifies req, req.buffer
    ensures var tail := old(req.Window()); var beyond := old(Beyond(req));
      if FirstOf(tail, '\n') < 0 then step == Refuse(400)
      else if FirstLine(tail) == [] then blank && TurnIs(req, tail, beyond, Noted(notes), step, refs')
      else !blank && TurnIs(req, tail, beyond, NoteLine(known, round, tail, beyond, notes), step, refs')
    ensures old(req.position) <= req.position
    ensures req.buffer[..][..old(req.position)] == old(req.buffer[..])[..old(req.position)]
  {
    ghost var tail, beyond := req.Window(), Beyond(req);
    refs', blank := refs, false;
    var ok, start, len := CutHeaderLine(req, refs, notes);
    if !ok {
      return Refuse(400), false, refs;
    }
    if len == 0 {
      RefersToStays(req.buffer[..], req.buffer[..], refs, notes, start, req.position);
      return Proceed, true, refs;
    }
    step, refs' := TakeLine(req, start, len, known, round, refs, notes, FirstLine(tail), (tail + beyond)[len + 1..]);
  }

  /** A cut line that is not blank is taken where it stands. */
  method TakeLine(req: RequestBuffer, start: nat, len: nat, known: set<string>, round: int -> int,
                  refs: Refs, ghost notes: Notes, ghost line: string, ghost after: string)
    returns (step: Step, refs': Refs)
    requires AtLine(req) && start + len < req.position && 0 < len == |line|
    requires req.buffer[start..start + len] == line && req.buffer[start + len] == NUL
    requires req.buffer[start + len + 1..] == after && RefersTo(req.buffer[..], refs, notes, start)
    modifies req.buffer
    ensures AtLine(req) && req.Window() == old(req.Window()) && Beyond(req) == old(Beyond(req))
    ensures req.buffer[..][..start] == old(req.buffer[..])[..start]
    ensures Answers(NoteText(known, round, line, after, notes), step, req.buffer[..], refs', req.position)
  {
    ghost var cut, i, j := req.buffer[..], req.position, req.position + req.nbytes;
    step, refs' := TakeHeader(req.buffer, start, len, known, round, refs, notes, line, after);
    SameFrom(cut, req.buffer[..], start + len, i, j);
    assert req.buffer[i..j] == cut[i..j] && req.buffer[j..] == cut[j..];
    AnswersStay(NoteText(known, round, line, after, notes), step, req.buffer[..], refs', start + len + 1, i);
  }

  lemma SameFrom(b: string, b': string, k: nat, i: nat, j: nat)
    requires k < i <= j <= |b| == |b'| && b[k..] == b'[k..]
    ensures b[i..j] == b'[i..j] && b[j..] == b'[j..] && b[i - 1] == b'[i - 1]
  {
    assert forall x | k <= x < |b| :: b[x] == b[k..][x - k] == b'[k..][x - k] == b'[x];
  }

  lemma AnswersStay(n: Noting, step: Step, b: string, refs: Refs, limit: nat, limit': nat)
    requires Answers(n, step, b, refs, limit) && limit <= limit' <= |b|
    ensures Answers(n, step, b, refs, limit')
  {
    if n.Noted? {
      RefersToStays(b, b, refs, n.notes, limit, limit');
    }
  }

  datatype HeaderStep = HeadersDone(refs: Refs) | HeadersRefused(status: nat) | HeadersCrashed

  /** The header loop: it ends with what the meaning of the received bytes says, and every
      pointer it kept then stands for the text that was meant. */
  method ReadHeaderLines(req: RequestBuffer, known: set<string>, round: int -> int)
    returns (r: HeaderStep, ghost notes: Notes)
    requires AtLine(req)
    modifies req, req.buffer
    ensures match ReadHeaders(known, round, old(req.Window()), old(Beyond(req)), NO_NOTES)
      case Refused(status) => r == HeadersRefused(status)
      case Crashed => r == HeadersCrashed
      case Done(meant, rest) =>
        && r.HeadersDone? && notes == meant && AtLine(req) && req.Window() == rest
        && RefersTo(req.buffer[..], r.refs, meant, req.position)
    ensures old(req.position) <= req.position
    ensures req.buffer[..][..old(req.position)] == old(req.buffer[..])[..old(req.position)]
  {
    ghost var tail0, beyond, from, was := req.Window(), Beyond(req), req.position, req.buffer[..];
    var refs := Refs([], None, true, 0);
    notes := NO_NOTES;
    while true
      invariant AtLine(req) && Beyond(req) == beyond
      invariant RefersTo(req.buffer[..], refs, notes, req.position)
      invariant from <= req.position && req.buffer[..][..from] == was[..from]
      invariant ReadHeaders(known, round, tail0, beyond, NO_NOTES)
        == ReadHeaders(known, round, req.Window(), beyond, notes)
      decreases |req.Window()|
    {
      ghost var tail, at, now := req.Window(), req.position, req.buffer[..];
      var step, blank, refs' := HeaderTurn(req, known, round, refs, notes);
      refs := refs';
      assert req.buffer[..][..from] == req.buffer[..][..at][..from] == now[..at][..from] == now[..from];
      match step {
        case Refuse(status) => return HeadersRefused(status), notes;
        case Crash => return HeadersCrashed, notes;
        case Proceed =>
          if blank {
            return HeadersDone(refs), notes;
          }
          notes := NoteLine(known, round, tail, beyond, notes).notes;
      }
    }
  }
}
