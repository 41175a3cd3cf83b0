/** Length-framed messages on a client connection: the incremental reader, and
    which byte streams it reads the same way however they are fragmented. */
module Framing {

  // ----- Lines and lengths -----

  predicate IsEol(c: char)
  {
    c == '\r' || c == '\n'
  }

  /** How many characters s has before its first end-of-line character. */
  function LineLen(s: string): (n: nat)
    ensures n <= |s| && (n < |s| ==> IsEol(s[n]))
    ensures forall i :: 0 <= i < n ==> !IsEol(s[i])
  {
    if s == [] || IsEol(s[0]) then 0 else 1 + LineLen(s[1..])
  }

  /** How many end-of-line characters s starts with. */
  function EolRun(s: string): (n: nat)
    ensures n <= |s| && (n < |s| ==> !IsEol(s[n]))
    ensures forall i :: 0 <= i < n ==> IsEol(s[i])
  {
    if s == [] || !IsEol(s[0]) then 0 else 1 + EolRun(s[1..])
  }

  datatype Line = NoLine | Line(text: string, rest: string)

  /** The buffer's read-line operation: up to the first end-of-line character,
      and past all that follow it directly. */
  function ReadLn(s: string): (l: Line)
    ensures l.Line? ==> |l.rest| < |s|
  {
    var n := LineLen(s);
    if n == |s| then NoLine else Line(s[..n], s[n..][EolRun(s[n..])..])
  }

  function HexDigit(c: char): int
  {
    if '0' <= c <= '9' then c as int - '0' as int
    else if 'a' <= c <= 'f' then c as int - 'a' as int + 10
    else if 'A' <= c <= 'F' then c as int - 'A' as int + 10
    else -1
  }

  /** The value of the leading hexadecimal digits. */
  function HexDigits(s: string, acc: nat): nat
    decreases |s|
  {
    if s == [] || HexDigit(s[0]) < 0 then acc else HexDigits(s[1..], 16 * acc + HexDigit(s[0]))
  }

  /** strtoul in base 16: space, a sign, 0x, digits; saturating at 64 bits. */
  function Strtoul(s: string): nat
    decreases |s|
  {
    if s != [] && (s[0] == ' ' || '\t' <= s[0] <= '\r') then Strtoul(s[1..])
    else
      var t := if s != [] && (s[0] == '-' || s[0] == '+') then s[1..] else s;
      var u := if |t| > 2 && t[0] == '0' && (t[1] == 'x' || t[1] == 'X') && HexDigit(t[2]) >= 0 then t[2..] else t;
      var v := HexDigits(u, 0);
      if v > 0xffff_ffff_ffff_ffff then 0xffff_ffff_ffff_ffff
      else if s != [] && s[0] == '-' then (0x1_0000_0000_0000_0000 - v) % 0x1_0000_0000_0000_0000
      else v
  }

  /** The conversion of a length line: a value that fits neither as a signed
      nor as an unsigned 32-bit number becomes -1. */
  function HexStringToInt(s: string): int
  {
    var r := Strtoul(s);
    if r < 0x8000_0000 then r
    else if r < 0x1_0000_0000 then r - 0x1_0000_0000
    else if r >= 0x1_0000_0000_0000_0000 - 0x8000_0000 then r - 0x1_0000_0000_0000_0000
    else -1
  }

  // ----- What one call of the reader does -----

  /** next is the length of the message being waited for, 0 if a length line
      comes next; threw records an attempt to make room for a negative length. */
  datatype Conn = Conn(next: int, input: string, out: seq<string>, threw: bool)

  const START := Conn(0, [], [], false)

  /** Reads lines until one gives a positive length. */
  function ReadLength(c: Conn): (r: Conn)
    ensures |r.input| <= |c.input| && r.out == c.out
    decreases |c.input|
  {
    match ReadLn(c.input)
    case NoLine => c
    case Line(text, rest) =>
      var c' := c.(next := HexStringToInt(text), input := rest);
      if c'.next > 0 then c' else ReadLength(c')
  }

  /** One round of the outer loop, or None when the loop is left. */
  datatype Round = Done(c: Conn) | Again(c: Conn)

  function Payload(c: Conn): Round
  {
    if c.input == [] then Done(c)
    else if c.next < 0 then Done(c.(threw := true))
    else if |c.input| >= c.next then
      Again(c.(next := 0, input := c.input[c.next..], out := c.out + [c.input[..c.next]]))
    else Done(c)
  }

  function OneRound(c: Conn): (r: Round)
    ensures r.Again? ==> |r.c.input| < |c.input|
  {
    if c.next != 0 then Payload(c)
    else
      var c' := ReadLength(c);
      if c'.next > 0 then Payload(c') else Done(c')
  }

  function Pump(c: Conn): Conn
    decreases |c.input|
  {
    match OneRound(c)
    case Done(c') => c'
    case Again(c') => Pump(c')
  }

  class HttpSession {
    var input: string
    var nextMsgMaxLen: int
    /** The messages passed to the message callback so far. */
    var messages: seq<string>

    constructor ()
      ensures input == [] && nextMsgMaxLen == 0 && messages == []
    {
      input, nextMsgMaxLen, messages := [], 0, [];
    }

    ghost function Conn_(): Conn
      reads this
    {
      Conn(nextMsgMaxLen, input, messages, false)
    }

    /** Handles whatever the input buffer holds; threw reports the exception
        for a negative length. */
    method OnReceive() returns (threw: bool)
      modifies this
      ensures Pump(old(Conn_())) == Conn_().(threw := threw)
    {
      threw := false;
      while true
        invariant Pump(old(Conn_())) == Pump(Conn_())
        decreases |input|
      {
        if nextMsgMaxLen == 0 {
          var found := NextLength();
          if !found {
            return;
          }
        }
        if |input| <= 0 {
          return;
        }
        if nextMsgMaxLen < 0 {
          return true;
        }
        if |input| < nextMsgMaxLen {
          return;
        }
        messages := messages + [input[..nextMsgMaxLen]];
        input := input[nextMsgMaxLen..];
        nextMsgMaxLen := 0;
      }
    }

    method NextLength() returns (found: bool)
      requires nextMsgMaxLen == 0
      modifies this`input, this`nextMsgMaxLen
      ensures Conn_() == ReadLength(old(Conn_())) && found == (nextMsgMaxLen > 0)
    {
      var size := ReadLn(input);
      while size.Line?
        invariant size == ReadLn(input) && nextMsgMaxLen <= 0
        invariant ReadLength(old(Conn_())) == ReadLength(Conn_())
        decreases |input|
      {
        nextMsgMaxLen := HexStringToInt(size.text);
        input := size.rest;
        if nextMsgMaxLen > 0 {
          return true;
        }
        size := ReadLn(input);
      }
      found := false;
    }
  }

  // ----- Framed streams -----

  /** A length line, one end-of-line character, the payload, and any further
      end-of-line characters. */
  datatype Frame = Frame(header: string, eol: char, payload: string, trail: string)

  ghost predicate AllEol(s: string)
  {
    forall i :: 0 <= i < |s| ==> IsEol(s[i])
  }

  ghost predicate NoEol(s: string)
  {
    forall i :: 0 <= i < |s| ==> !IsEol(s[i])
  }

  /** The length line is the length of the payload. */
  ghost predicate Framed(f: Frame)
  {
    && NoEol(f.header) && HexStringToInt(f.header) == |f.payload| > 0
    && IsEol(f.eol) && AllEol(f.trail)
  }

  ghost predicate AllFramed(fs: seq<Frame>)
  {
    forall i :: 0 <= i < |fs| ==> Framed(fs[i])
  }

  /** The payload cannot be taken for more of the line end. */
  ghost predicate WellFormed(f: Frame)
  {
    Framed(f) && !IsEol(f.payload[0])
  }

  ghost predicate AllWellFormed(fs: seq<Frame>)
  {
    forall i :: 0 <= i < |fs| ==> WellFormed(fs[i])
  }

  ghost function Wire(fs: seq<Frame>): string
  {
    if fs == [] then [] else fs[0].header + ([fs[0].eol] + (fs[0].payload + (fs[0].trail + Wire(fs[1..]))))
  }

  ghost function Payloads(fs: seq<Frame>): seq<string>
  {
    if fs == [] then [] else [fs[0].payload] + Payloads(fs[1..])
  }

  /** Where the reader stands in a framed stream. */
  datatype Position = AtHeader(trail: string, fs: seq<Frame>) | AtPayload(payload: string, trail: string, fs: seq<Frame>)

  /** The connection c, with the bytes in later still to arrive, stands at pos. */
  ghost predicate At(c: Conn, later: string, pos: Position)
  {
    && !c.threw && AllEol(pos.trail) && AllWellFormed(pos.fs)
    && match pos
       case AtHeader(trail, fs) => c.next == 0 && c.input + later == trail + Wire(fs)
       case AtPayload(payload, trail, fs) =>
         c.next == |payload| > 0 && c.input + later == payload + (trail + Wire(fs))
  }

  ghost function Left(pos: Position): seq<string>
  {
    match pos
    case AtHeader(_, fs) => Payloads(fs)
    case AtPayload(payload, _, fs) => [payload] + Payloads(fs)
  }

  /** The buffer holds no complete line, or less than the message waited for. */
  ghost predicate Unfinished(c: Conn)
  {
    if c.next == 0 then NoEol(c.input) else |c.input| < c.next
  }

  lemma EmptyLength()
    ensures HexStringToInt("") == 0
  {
  }

  lemma FirstChar(fs: seq<Frame>)
    requires fs != [] && AllWellFormed(fs)
    ensures fs[0].header != [] && Wire(fs) != [] && !IsEol(Wire(fs)[0])
  {
    EmptyLength();
    assert WellFormed(fs[0]);
    assert Wire(fs)[0] == fs[0].header[0];
  }

  /** End-of-line characters between frames read as an empty line. */
  lemma SkipTrail(c: Conn, later: string, trail: string, fs: seq<Frame>) returns (k: nat)
    requires At(c, later, AtHeader(trail, fs)) && c.input != [] && trail != []
    ensures 0 < k <= |c.input| && k <= |trail|
    ensures ReadLn(c.input) == Line("", c.input[k..])
    ensures At(c.(input := c.input[k..]), later, AtHeader(trail[k..], fs))
  {
    if fs != [] { FirstChar(fs); }
    k := EolRun(c.input);
    EolPrefix(c.input, later, trail, Wire(fs));
  }

  lemma EolPrefix(input: string, later: string, trail: string, w: string)
    requires input + later == trail + w && AllEol(trail) && (w == [] || !IsEol(w[0]))
    requires input != [] && trail != []
    ensures var k := EolRun(input);
            0 < k <= |trail| && ReadLn(input) == Line("", input[k..]) && input[k..] + later == trail[k..] + w
  {
    var s, k := input + later, EolRun(input);
    assert input[0] == s[0] == trail[0];
    assert |input| > |trail| ==> input[|trail|] == s[|trail|] == w[0];
    assert input[0..] == input && input[..0] == "";
    Shifted(input, later, trail, w, k);
  }

  lemma Shifted(a: string, b: string, c: string, d: string, k: nat)
    requires a + b == c + d && k <= |a| && k <= |c|
    ensures a[k..] + b == c[k..] + d
  {
    assert a[k..] + b == (a + b)[k..];
    assert c[k..] + d == (c + d)[k..];
  }

  /** A length line, once its end has arrived. */
  lemma ReadHeader(c: Conn, later: string, fs: seq<Frame>)
    requires At(c, later, AtHeader([], fs))
    ensures fs == [] || |c.input| <= |fs[0].header| ==> NoEol(c.input)
    ensures fs != [] && |c.input| > |fs[0].header| ==>
              var f := fs[0];
              var rest := c.input[|f.header| + 1..];
              && ReadLn(c.input) == Line(f.header, rest)
              && At(c.(next := |f.payload|, input := rest), later, AtPayload(f.payload, f.trail, fs[1..]))
  {
    assert [] + Wire(fs) == Wire(fs);
    if fs != [] {
      var f := fs[0];
      assert WellFormed(f);
      HeaderLine(c.input, later, f.header, f.eol, f.payload + (f.trail + Wire(fs[1..])));
    }
  }

  /** A line h, its end e and what follows, of which only a part has arrived. */
  lemma HeaderLine(input: string, later: string, h: string, e: char, after: string)
    requires input + later == h + ([e] + after) && NoEol(h) && IsEol(e) && after != [] && !IsEol(after[0])
    ensures |input| <= |h| ==> NoEol(input)
    ensures |input| > |h| ==>
              ReadLn(input) == Line(h, input[|h| + 1..]) && input[|h| + 1..] + later == after
  {
    var s, n := input + later, |h|;
    assert forall i :: 0 <= i < |input| ==> input[i] == s[i];
    assert forall i :: 0 <= i < n ==> s[i] == h[i];
    if |input| > n {
      assert input[n] == s[n] == e;
      assert LineLen(input) == n && input[..n] == h;
      var u := input[n..];
      assert |u| > 1 ==> u[1] == s[n + 1] == after[0];
      assert EolRun(u) == 1 && u[1..] == input[n + 1..];
      assert input[n + 1..] + later == s[n + 1..] == after;
    }
  }

  lemma {:induction false} ReadLengthAt(c: Conn, later: string, trail: string, fs: seq<Frame>) returns (pos: Position)
    requires At(c, later, AtHeader(trail, fs))
    ensures At(ReadLength(c), later, pos) && Left(pos) == Payloads(fs)
    ensures pos.AtHeader? ==> NoEol(ReadLength(c).input)
    decreases |c.input|
  {
    if c.input == [] {
      pos := AtHeader(trail, fs);
    } else if trail != [] {
      var k := SkipTrail(c, later, trail, fs);
      EmptyLength();
      pos := ReadLengthAt(c.(input := c.input[k..]), later, trail[k..], fs);
    } else {
      ReadHeader(c, later, fs);
      if fs == [] || |c.input| <= |fs[0].header| {
        assert ReadLn(c.input) == NoLine;
        pos := AtHeader(trail, fs);
      } else {
        assert WellFormed(fs[0]);
        pos := AtPayload(fs[0].payload, fs[0].trail, fs[1..]);
      }
    }
  }

  lemma PayloadAt(c: Conn, later: string, payload: string, trail: string, fs: seq<Frame>)
    requires At(c, later, AtPayload(payload, trail, fs))
    ensures |c.input| < c.next ==> Payload(c) == Done(c)
    ensures |c.input| >= c.next ==>
              && Payload(c).Again? && Payload(c).c.out == c.out + [payload]
              && At(Payload(c).c, later, AtHeader(trail, fs))
  {
    var s := c.input + later;
    if |c.input| >= c.next {
      assert c.input[..c.next] == s[..c.next] == payload;
      assert c.input[c.next..] + later == s[c.next..] == trail + Wire(fs);
    }
  }

  /** One call: it delivers whole payloads, in order, and leaves an unfinished
      frame. */
  lemma {:induction false} PumpAt(c: Conn, later: string, pos: Position) returns (pos': Position)
    requires At(c, later, pos)
    ensures At(Pump(c), later, pos') && Unfinished(Pump(c))
    ensures Pump(c).out + Left(pos') == c.out + Left(pos)
    decreases |c.input|
  {
    var c1, pos1 := c, pos;
    if pos.AtHeader? {
      c1 := ReadLength(c);
      pos1 := ReadLengthAt(c, later, pos.trail, pos.fs);
    }
    if pos1.AtHeader? {
      assert OneRound(c) == Done(c1);
      pos' := pos1;
    } else {
      assert OneRound(c) == Payload(c1);
      PayloadAt(c1, later, pos1.payload, pos1.trail, pos1.fs);
      if |c1.input| < c1.next {
        pos' := pos1;
      } else {
        pos' := PumpAt(Payload(c1).c, later, AtHeader(pos1.trail, pos1.fs));
        Reassociate(c.out, pos1.payload, Payloads(pos1.fs));
      }
    }
  }

  lemma Reassociate(out: seq<string>, p: string, ps: seq<string>)
    ensures (out + [p]) + ps == out + ([p] + ps)
  {
  }

  // ----- Fragmentation -----

  ghost function Receive(c: Conn, chunks: seq<string>): Conn
    decreases |chunks|
  {
    if chunks == [] then c else Receive(Pump(c.(input := c.input + chunks[0])), chunks[1..])
  }

  ghost function Concat(chunks: seq<string>): string
  {
    if chunks == [] then [] else chunks[0] + Concat(chunks[1..])
  }

  lemma {:induction false} ReceiveAt(c: Conn, chunks: seq<string>, later: string, pos: Position) returns (pos': Position)
    requires At(c, Concat(chunks) + later, pos) && Unfinished(c)
    ensures At(Receive(c, chunks), later, pos') && Unfinished(Receive(c, chunks))
    ensures Receive(c, chunks).out + Left(pos') == c.out + Left(pos)
    decreases |chunks|
  {
    if chunks == [] {
      assert Concat(chunks) + later == later;
      pos' := pos;
    } else {
      var more := Concat(chunks[1..]) + later;
      var c1 := c.(input := c.input + chunks[0]);
      assert c1.input + more == c.input + (Concat(chunks) + later);
      var pos1 := PumpAt(c1, more, pos);
      pos' := ReceiveAt(Pump(c1), chunks[1..], later, pos1);
    }
  }

  /** However a stream of well-formed frames is cut into pieces, exactly its
      payloads are delivered, in order, and nothing is left over. */
  lemma EveryFragmentationDelivers(fs: seq<Frame>, chunks: seq<string>)
    requires AllWellFormed(fs) && Concat(chunks) == Wire(fs)
    ensures Receive(START, chunks) == Conn(0, [], Payloads(fs), false)
  {
    var c := START;
    assert Concat(chunks) + [] == Concat(chunks);
    assert [] + Wire(fs) == Wire(fs) == c.input + (Concat(chunks) + []);
    var pos := ReceiveAt(c, chunks, [], AtHeader([], fs));
    var r := Receive(c, chunks);
    NothingLeft(r, pos);
    assert r.out + [] == r.out && [] + Payloads(fs) == Payloads(fs);
  }

  lemma NothingLeft(c: Conn, pos: Position)
    requires At(c, [], pos) && Unfinished(c)
    ensures c.next == 0 && c.input == [] && Left(pos) == []
  {
    assert c.input + [] == c.input;
    if pos.AtHeader? { EolSomewhere(pos.trail, pos.fs); }
  }

  lemma EolSomewhere(trail: string, fs: seq<Frame>)
    requires AllEol(trail) && AllWellFormed(fs)
    ensures NoEol(trail + Wire(fs)) ==> trail == [] && fs == []
  {
    if trail != [] {
      assert (trail + Wire(fs))[0] == trail[0];
    } else if fs != [] {
      assert WellFormed(fs[0]) && (trail + Wire(fs))[|fs[0].header|] == fs[0].eol;
    }
  }

  // ----- Where fragmentation shows -----

  /** A second end-of-line character after a length line is skipped with the
      line if both have arrived, but is the first byte of the message if the
      input was cut between them.  So the first message does not depend on the
      cut exactly when the bytes after the line end do not start with one. */
  lemma CutAfterLineEnd(h: string, e: char, rest: string)
    requires NoEol(h) && IsEol(e) && HexStringToInt(h) > 0
    requires |rest| >= EolRun(rest) + HexStringToInt(h)
    ensures var c := START;
            var whole := Receive(c, [h + ([e] + rest)]);
            var cut := Receive(c, [h + [e], rest]);
            |whole.out| > 0 && |cut.out| > 0 && (whole.out[0] == cut.out[0] <==> EolRun(rest) == 0)
  {
    var c := START;
    var n, k := HexStringToInt(h), EolRun(rest);
    ReceiveOne(c, h + ([e] + rest));
    LineOf(h, e, rest);
    FirstOut(c.(input := h + ([e] + rest)), Conn(n, rest[k..], [], false));
    CutFirst(c, h, e);
    ReceiveTwo(c, h + [e], rest);
    FirstOut(Conn(n, rest, [], false), Conn(n, rest, [], false));
    DifferentStart(rest, k, n);
  }

  lemma DifferentStart(rest: string, k: nat, n: nat)
    requires n > 0 && k == EolRun(rest) && |rest| >= k + n
    ensures rest[k..][..n] == rest[..n] <==> k == 0
  {
    assert rest[k..][..n][0] == rest[k] && rest[..n][0] == rest[0];
    if k == 0 { assert rest[0..] == rest; }
  }

  /** The first message delivered, once its length c1 is known. */
  lemma FirstOut(c: Conn, c1: Conn)
    requires c1 == (if c.next == 0 then ReadLength(c) else c)
    requires c1.next > 0 && |c1.input| >= c1.next && c1.out == []
    ensures |Pump(c).out| > 0 && Pump(c).out[0] == c1.input[..c1.next]
  {
    var c2 := c1.(next := 0, input := c1.input[c1.next..], out := [c1.input[..c1.next]]);
    assert OneRound(c) == Again(c2);
    PumpKeepsFirst(c2);
  }

  lemma ReceiveOne(c: Conn, s: string)
    requires c.input == []
    ensures Receive(c, [s]) == Pump(c.(input := s))
  {
    assert c.input + s == s && [s][1..] == [];
  }

  lemma ReceiveTwo(c: Conn, s: string, t: string)
    requires c.input == [] && Pump(c.(input := s)).input == []
    ensures Receive(c, [s, t]) == Pump(Pump(c.(input := s)).(input := t))
  {
    assert c.input + s == s && [s, t][1..] == [t];
    ReceiveOne(Pump(c.(input := s)), t);
  }

  lemma LineOf(h: string, e: char, rest: string)
    requires NoEol(h) && IsEol(e)
    ensures ReadLn(h + ([e] + rest)) == Line(h, rest[EolRun(rest)..])
  {
    var s, u := h + ([e] + rest), [e] + rest;
    assert forall i :: 0 <= i < |h| ==> s[i] == h[i];
    assert s[|h|] == e;
    assert LineLen(s) == |h| && s[..|h|] == h && s[|h|..] == u;
    assert u[1..] == rest;
    assert EolRun(u) == 1 + EolRun(rest);
    assert u[1 + EolRun(rest)..] == rest[EolRun(rest)..];
  }

  lemma CutFirst(c: Conn, h: string, e: char)
    requires c == START && NoEol(h) && IsEol(e) && HexStringToInt(h) > 0
    ensures Pump(c.(input := h + [e])) == Conn(HexStringToInt(h), [], [], false)
  {
    LineOf(h, e, []);
    assert h + ([e] + []) == h + [e];
  }

  lemma {:induction false} PumpKeepsFirst(c: Conn)
    ensures c.out <= Pump(c).out
    decreases |c.input|
  {
    if OneRound(c).Again? { PumpKeepsFirst(OneRound(c).c); }
  }

  // ----- Every cut, exactly -----

  /** However the stream is cut, the payloads are delivered, in order. */
  ghost predicate AnyCutDelivers(fs: seq<Frame>)
  {
    forall chunks :: Concat(chunks) == Wire(fs) ==> Receive(START, chunks).out == Payloads(fs)
  }

  /** Of all frame streams these are exactly the ones in which no payload
      begins with an end-of-line character. */
  lemma AnyCutExactly(fs: seq<Frame>)
    requires AllFramed(fs)
    ensures AnyCutDelivers(fs) <==> forall i :: 0 <= i < |fs| ==> !IsEol(fs[i].payload[0])
  {
    if forall i :: 0 <= i < |fs| ==> !IsEol(fs[i].payload[0]) {
      forall chunks | Concat(chunks) == Wire(fs)
        ensures Receive(START, chunks).out == Payloads(fs)
      {
        EveryFragmentationDelivers(fs, chunks);
      }
    } else {
      var i := FirstBad(fs);
      CutBefore(fs, i);
    }
  }

  lemma {:induction false} FirstBad(fs: seq<Frame>) returns (i: nat)
    requires AllFramed(fs) && exists j :: 0 <= j < |fs| && IsEol(fs[j].payload[0])
    ensures i < |fs| && IsEol(fs[i].payload[0]) && AllWellFormed(fs[..i])
  {
    i := 0;
    while !IsEol(fs[i].payload[0])
      invariant i < |fs| && AllWellFormed(fs[..i])
      invariant exists j :: i <= j < |fs| && IsEol(fs[j].payload[0])
      decreases |fs| - i
    {
      i := i + 1;
    }
  }

  /** Cut in front of the first frame whose payload begins with an end of line,
      the stream does not deliver that payload. */
  lemma CutBefore(fs: seq<Frame>, i: nat)
    requires AllFramed(fs) && i < |fs| && IsEol(fs[i].payload[0]) && AllWellFormed(fs[..i])
    ensures var chunks := [Wire(fs[..i]), Wire(fs[i..])];
            Concat(chunks) == Wire(fs) && Receive(START, chunks).out != Payloads(fs)
  {
    var a, b := Wire(fs[..i]), Wire(fs[i..]);
    var c := Conn(0, [], Payloads(fs[..i]), false);
    WireSplit(fs, i);
    PayloadsSplit(fs, i);
    ConcatTwo(a, b);
    EveryFragmentationDelivers(fs[..i], [a]);
    ReceiveOne(START, a);
    ReceiveTwo(START, a, b);
    Miscounted(c, fs[i..]);
  }

  lemma ConcatTwo(a: string, b: string)
    ensures Concat([a]) == a && Concat([a, b]) == a + b
  {
    assert [a, b][1..] == [b] && [b][1..] == [] == [a][1..];
  }

  lemma {:induction false} WireSplit(fs: seq<Frame>, i: nat)
    requires i <= |fs|
    ensures Wire(fs) == Wire(fs[..i]) + Wire(fs[i..])
    decreases i
  {
    if i == 0 {
      assert fs[..0] == [] && fs[0..] == fs;
    } else {
      var f := fs[0];
      WireSplit(fs[1..], i - 1);
      assert fs[..i][1..] == fs[1..][..i - 1] && fs[1..][i - 1..] == fs[i..] && fs[..i][0] == f;
      Regroup(f.header, [f.eol], f.payload, f.trail, Wire(fs[..i][1..]), Wire(fs[i..]));
    }
  }

  lemma Regroup(h: string, e: string, p: string, t: string, a: string, b: string)
    ensures h + (e + (p + (t + (a + b)))) == h + (e + (p + (t + a))) + b
  {
    assert t + (a + b) == t + a + b;
    assert p + (t + a + b) == p + (t + a) + b;
    assert e + (p + (t + a) + b) == e + (p + (t + a)) + b;
  }

  lemma {:induction false} PayloadsSplit(fs: seq<Frame>, i: nat)
    requires i <= |fs|
    ensures Payloads(fs) == Payloads(fs[..i]) + Payloads(fs[i..])
    decreases i
  {
    if i == 0 {
      assert fs[..0] == [] && fs[0..] == fs;
    } else {
      PayloadsSplit(fs[1..], i - 1);
      assert fs[..i][1..] == fs[1..][..i - 1] && fs[1..][i - 1..] == fs[i..] && fs[..i][0] == fs[0];
    }
  }

  /** A frame that has arrived whole, with a payload that begins with an end of
      line: what comes out next, if anything does, does not begin with one. */
  lemma Miscounted(c: Conn, fs: seq<Frame>)
    requires c.next == 0 && fs != [] && Framed(fs[0]) && IsEol(fs[0].payload[0])
    ensures Pump(c.(input := Wire(fs))).out != c.out + Payloads(fs)
  {
    var f, c0 := fs[0], c.(input := Wire(fs));
    var rest := f.payload + (f.trail + Wire(fs[1..]));
    var k := EolRun(rest);
    LineOf(f.header, f.eol, rest);
    var c1 := c0.(next := |f.payload|, input := rest[k..]);
    assert ReadLength(c0) == c1;
    assert rest[0] == f.payload[0];
    if |c1.input| >= c1.next {
      var c2 := c1.(next := 0, input := c1.input[c1.next..], out := c1.out + [c1.input[..c1.next]]);
      assert OneRound(c0) == Again(c2);
      PumpKeepsFirst(c2);
      assert c2.out[|c.out|][0] == rest[k];
    } else {
      assert OneRound(c0) == Done(c1);
    }
  }

  // ----- Length lines as clients print them -----

  function HexChar(d: nat): (c: char)
    requires d < 16
    ensures HexDigit(c) == d && !IsEol(c)
  {
    if d < 10 then '0' + d as char else 'a' + (d - 10) as char
  }

  function Hex(n: nat): string
  {
    if n < 16 then [HexChar(n)] else Hex(n / 16) + [HexChar(n % 16)]
  }

  lemma {:induction false} HexDigitsSnoc(s: string, acc: nat, c: char)
    requires (forall i :: 0 <= i < |s| ==> HexDigit(s[i]) >= 0) && HexDigit(c) >= 0
    ensures HexDigits(s + [c], acc) == 16 * HexDigits(s, acc) + HexDigit(c)
    decreases |s|
  {
    if s == [] {
      assert s + [c] == [c] && [c][1..] == [];
    } else {
      assert (s + [c])[1..] == s[1..] + [c];
      HexDigitsSnoc(s[1..], 16 * acc + HexDigit(s[0]), c);
    }
  }

  lemma {:induction false} HexValue(n: nat)
    ensures HexDigits(Hex(n), 0) == n && Hex(n) != [] && NoEol(Hex(n))
    ensures forall i :: 0 <= i < |Hex(n)| ==> HexDigit(Hex(n)[i]) >= 0
  {
    if n < 16 {
      assert [HexChar(n)][1..] == [];
    } else {
      HexValue(n / 16);
      HexDigitsSnoc(Hex(n / 16), 0, HexChar(n % 16));
    }
  }

  /** Every length a message can have makes a length line that reads back. */
  lemma HexLineReadsBack(n: nat)
    requires n < 0x8000_0000
    ensures HexStringToInt(Hex(n)) == n && NoEol(Hex(n))
  {
    HexValue(n);
    var s := Hex(n);
    assert HexDigit(s[0]) >= 0;
    assert |s| > 1 ==> HexDigit(s[1]) >= 0;
  }
}
