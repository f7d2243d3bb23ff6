/** What cflare_request_process_socket makes of a request head, as functions of the bytes
    in the buffer: when the scanner stops reading, and what the parser finds. */
module Heads {
  import opened Options
  import opened Text
  import opened Numbers

  const MAX_LENGTH := 4096
  const MAX_HEADERS := 32
  const SIZE_MODULUS := 0x1_0000_0000_0000_0000

  // The scanner.

  function ScanStep(newlines: nat, c: char): nat {
    if c == '\r' then newlines else if c == '\n' then newlines + 1 else 0
  }

  /** The scanner's counter after `s`, which it starts at zero. */
  function Newlines(s: string): nat {
    if s == [] then 0 else ScanStep(Newlines(s[..|s| - 1]), s[|s| - 1])
  }

  /** The scanner stops at byte `e`: there the counter first reaches two. */
  predicate StopsAt(s: string, e: nat) {
    e < |s| && Newlines(s[..e + 1]) == 2 && forall k | 0 <= k <= e :: Newlines(s[..k]) < 2
  }

  // The request line.

  /** A line without the carriage return that may stand before its newline. */
  function ChopCr(line: string): string {
    if line != [] && line[|line| - 1] == '\r' then line[..|line| - 1] else line
  }

  datatype StartLine =
    | Start(verb: string, path: string, query: Option<string>, version: string, rest: string)
    | BadStart(status: nat)

  function ReadStart(s: string): StartLine {
    var m := FirstOf(s, ' ');
    if m < 0 then BadStart(400) else ReadTarget(s[..m], s[m + 1..])
  }

  function ReadTarget(verb: string, s: string): StartLine {
    var p := FirstOf(s, ' ');
    if p < 0 then BadStart(414) else ReadVersion(verb, s[..p], s[p + 1..])
  }

  function ReadVersion(verb: string, target: string, s: string): StartLine {
    var q := FirstOf(target, '?');
    var v := FirstOf(s, '\n');
    if v < 0 then BadStart(400)
    else Start(verb,
               if q < 0 then target else target[..q],
               if q < 0 then None else Some(target[q + 1..]),
               ChopCr(s[..v]),
               s[v + 1..])
  }

  // The headers.

  /** A header that is kept: its lower-case name, its value, and its recorded length. */
  datatype Field = Field(name: string, value: string, length: nat)

  datatype Notes = Notes(headers: seq<Field>, host: Option<string>, keepalive: bool, contentLength: int)

  const NO_NOTES := Notes([], None, true, 0)

  datatype Noting = Noted(notes: Notes) | NotNoted(status: nat) | NoteCrashed

  /** One header line's effect, by its key and value. */
  function Note(known: set<string>, round: int -> int, key: string, f: Field, acc: Notes): Noting {
    var name := Lower(CStr(key));
    if name !in known then Noted(acc)
    else if |acc.headers| >= MAX_HEADERS then NotNoted(413)
    else
      var kept := acc.(headers := acc.headers + [f.(name := name)]);
      if name == "host" then Noted(kept.(host := Some(f.value)))
      else if name == "connection" then Noted(kept.(keepalive := Contains(CStr(f.value), "keep-alive")))
      else if name == "content-length" then
        match Computed(CStr(f.value), round)
        case Number(n) => Noted(kept.(contentLength := n))
        case NotANumber => NotNoted(400)
        case AssertionFails => NoteCrashed
      else Noted(kept)
  }

  /** The value of a header line. The parser skips two bytes after the name, the colon and a
      space. When the line ends at its colon the length wraps around and the value is
      whatever follows the line, up to a NUL. */
  function ValueOf(line: string, col: nat, after: string): Field
    requires col < |line|
  {
    if col + 2 <= |line| then Field([], line[col + 2..], |line| - col - 2)
    else Field([], CStr(after), SIZE_MODULUS - 1)
  }

  datatype HeaderLines = Done(notes: Notes, rest: string) | Refused(status: nat) | Crashed

  /** The first line of `tail`, without its line end. */
  function FirstLine(tail: string): string
    requires FirstOf(tail, '\n') >= 0
  {
    ChopCr(tail[..FirstOf(tail, '\n')])
  }

  /** What a line that is not blank adds; `after` is what the buffer holds from one byte past
      the line's end on. Nothing can be continued, so a line that begins with white space is
      refused. */
  function NoteText(known: set<string>, round: int -> int, line: string, after: string, acc: Notes): Noting
    requires line != []
  {
    var col := FirstOf(line, ':');
    if line[0] == ' ' || line[0] == '\t' || col < 0 then NotNoted(400)
    else Note(known, round, line[..col], ValueOf(line, col, after), acc)
  }

  function NoteLine(known: set<string>, round: int -> int, tail: string, beyond: string, acc: Notes): Noting
    requires FirstOf(tail, '\n') >= 0 && FirstLine(tail) != []
  {
    NoteText(known, round, FirstLine(tail), (tail + beyond)[|FirstLine(tail)| + 1..], acc)
  }

  /** The header loop over `tail`, the bytes read so far; `beyond` is what the buffer holds
      after them. */
  function ReadHeaders(known: set<string>, round: int -> int, tail: string, beyond: string, acc: Notes): HeaderLines
    decreases |tail|
  {
    var pos := FirstOf(tail, '\n');
    if pos < 0 then Refused(400)
    else if FirstLine(tail) == [] then Done(acc, tail[pos + 1..])
    else
      match NoteLine(known, round, tail, beyond, acc)
      case Noted(acc') => ReadHeaders(known, round, tail[pos + 1..], beyond, acc')
      case NotNoted(status) => Refused(status)
      case NoteCrashed => Crashed
  }

  // The verdict.

  datatype Request = Request(
    verb: string, path: string, query: Option<string>, version: string,
    headers: seq<Field>, host: Option<string>, keepalive: bool, contentLength: nat)

  /** HostRewrite is HTTP/1.2 with an absolute target, which is not followed further. */
  datatype Verdict = Accepted(request: Request, rest: string) | Rejected(status: nat) | Aborted | HostRewrite

  /** `major` and `minor` are the sixth and eighth byte from the start of the version. */
  function Decide(start: StartLine, notes: Notes, rest: string, major: char, minor: char): (v: Verdict)
    requires start.Start?
    ensures v.Accepted? ==> v.rest == rest && major == '1'
  {
    var r := Request(start.verb, start.path, start.query, start.version,
                     notes.headers, notes.host, notes.keepalive, notes.contentLength % SIZE_MODULUS);
    if major != '1' then Rejected(400)
    else if minor == '1' then (if notes.host == None then Rejected(400) else Accepted(r, rest))
    else if minor == '2' then (if Contains(CStr(start.path), "://") then HostRewrite else Accepted(r, rest))
    else Accepted(r.(keepalive := false), rest)
  }

  function ParseHead(known: set<string>, round: int -> int, s: string, beyond: string, major: char,
                     minor: char): Verdict {
    match ReadStart(s)
    case BadStart(status) => Rejected(status)
    case Start(_, _, _, _, tail) =>
      match ReadHeaders(known, round, tail, beyond, NO_NOTES)
      case Refused(status) => Rejected(status)
      case Crashed => Aborted
      case Done(notes, rest) => Decide(ReadStart(s), notes, rest, major, minor)
  }
}
