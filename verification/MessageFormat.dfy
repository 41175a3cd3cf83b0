/** The JSON-like text form of messages: the printer and the hand-written
    parser automaton, and when they are inverse to each other. */
module MessageFormat {
  import opened Common

  // ----- Messages -----

  datatype Message = Message(kind: int, seqNo: int, ttl: int, to: string, from: string,
                             user: string, channel: string, body: string)

  const EMPTY := Message(-1, -1, -1, "", "", "", "", "")

  const INT32_MAX := 0x7fff_ffff
  const INT64_MAX := 0x7fff_ffff_ffff_ffff

  /** The fields fit the integer types that hold them. */
  ghost predicate InRange(m: Message)
  {
    && -INT32_MAX - 1 <= m.kind <= INT32_MAX && -INT32_MAX - 1 <= m.seqNo <= INT32_MAX
    && -INT64_MAX - 1 <= m.ttl <= INT64_MAX
  }

  // ----- Characters and numbers -----

  predicate IsAlpha(c: char)
  {
    'a' <= c <= 'z' || 'A' <= c <= 'Z'
  }

  predicate IsPrint(c: char)
  {
    ' ' <= c <= '~'
  }

  predicate IsSpace(c: char)
  {
    c == ' ' || '\t' <= c <= '\r'
  }

  function Printed(n: int): string
  {
    if n < 0 then ['-'] + Decimal(-n) else Decimal(n)
  }

  /** The value of the leading digits of s, and how many there are. */
  function LeadingDigits(s: string, acc: nat): (int, nat)
    decreases |s|
  {
    if s == [] || !IsDigit(s[0]) then (acc, 0)
    else
      var (v, n) := LeadingDigits(s[1..], 10 * acc + (s[0] as int - '0' as int));
      (v, n + 1)
  }

  /** The conversion of std::stoi and std::stoll: leading space, a sign and
      digits; None stands for the exception thrown if there is no digit or the
      value is out of range. */
  function ParseInt(s: string, max: nat): Option<int>
    decreases |s|
  {
    if s != [] && IsSpace(s[0]) then ParseInt(s[1..], max)
    else
      var negative := s != [] && s[0] == '-';
      var (v, n) := LeadingDigits(if s != [] && (s[0] == '-' || s[0] == '+') then s[1..] else s, 0);
      var value := if negative then -v else v;
      if n == 0 || value > max || value + max + 1 < 0 then None else Some(value)
  }

  lemma {:induction false} LeadingDigitsAll(s: string, acc: nat, t: string)
    requires (forall i :: 0 <= i < |s| ==> IsDigit(s[i])) && (t == [] || !IsDigit(t[0]))
    ensures LeadingDigits(s + t, acc) == (LeadingDigits(s, acc).0, |s|)
    ensures LeadingDigits(s, acc) == (LeadingDigits(s, acc).0, |s|)
    decreases |s|
  {
    if s == [] {
      assert s + t == t;
    } else {
      assert (s + t)[1..] == s[1..] + t;
      LeadingDigitsAll(s[1..], 10 * acc + (s[0] as int - '0' as int), t);
    }
  }

  lemma {:induction false} LeadingDigitsSnoc(s: string, acc: nat, c: char)
    requires (forall i :: 0 <= i < |s| ==> IsDigit(s[i])) && IsDigit(c)
    ensures LeadingDigits(s + [c], acc).0 == 10 * LeadingDigits(s, acc).0 + (c as int - '0' as int)
    decreases |s|
  {
    if s == [] {
      assert s + [c] == [c];
      assert [c][1..] == [];
    } else {
      assert (s + [c])[1..] == s[1..] + [c];
      LeadingDigitsSnoc(s[1..], 10 * acc + (s[0] as int - '0' as int), c);
    }
  }

  lemma {:induction false} DecimalValue(n: nat)
    ensures LeadingDigits(Decimal(n), 0) == (n, |Decimal(n)|)
  {
    LeadingDigitsAll(Decimal(n), 0, []);
    if n < 10 {
      assert [DigitChar(n)][1..] == [];
    } else {
      DecimalValue(n / 10);
      LeadingDigitsSnoc(Decimal(n / 10), 0, DigitChar(n % 10));
    }
  }

  /** Printing and parsing a number. */
  lemma ParseDecimal(n: nat, max: nat)
    ensures ParseInt(Decimal(n), max) == if n <= max then Some(n) else None
  {
    DecimalValue(n);
    assert IsDigit(Decimal(n)[0]);
  }

  // ----- Printing -----

  function EscapeChar(c: char): string
  {
    if c == '"' then ['\\', '"']
    else if c == '\\' then ['\\', '\\']
    else if c == '\r' then ['\\', 'r']
    else if c == '\n' then ['\\', 'n']
    else [c]
  }

  function Escape(s: string): string
  {
    if s == [] then [] else Escape(s[..|s| - 1]) + EscapeChar(s[|s| - 1])
  }

  function IntField(sep: string, f: char, n: int): string
  {
    if n == -1 then [] else sep + ['"', f, '"', ':'] + Printed(n)
  }

  function TextField(f: char, value: string, text: string): string
  {
    if value == [] then [] else [',', '"', f, '"', ':', '"'] + text + ['"']
  }

  /** A field after the first: a number, or a text and the form it is printed in. */
  datatype Piece = Num(f: char, n: int) | Str(f: char, v: string, text: string)

  function PieceText(x: Piece): string
  {
    match x
    case Num(f, n) => IntField(",", f, n)
    case Str(f, v, text) => TextField(f, v, text)
  }

  function Texts(xs: seq<Piece>): string
  {
    if xs == [] then [] else PieceText(xs[0]) + Texts(xs[1..])
  }

  function Pieces(m: Message): seq<Piece>
  {
    [Num('s', m.seqNo), Num('l', m.ttl), Str('t', m.to, m.to), Str('f', m.from, m.from),
     Str('u', m.user, m.user), Str('c', m.channel, m.channel), Str('b', m.body, Escape(m.body))]
  }

  function Head(m: Message): string
  {
    ['{'] + IntField("", 'y', m.kind)
  }

  const END := ['}', '\n']

  /** The text form of a message: the type first, then the other fields that
      are set, each after a comma. */
  function Serialized(m: Message): string
  {
    Head(m) + (Texts(Pieces(m)) + END)
  }

  method Serialize(m: Message) returns (stream: string)
    ensures stream == Serialized(m)
  {
    stream := ['{'] + IntField("", 'y', m.kind);
    ghost var xs;
    stream, xs := Append(stream, Num('s', m.seqNo), Head(m), []);
    stream, xs := Append(stream, Num('l', m.ttl), Head(m), xs);
    stream, xs := AppendNames(stream, m, Head(m), xs);
    var text := EscapeBody(m.body);
    stream, xs := Append(stream, Str('b', m.body, text), Head(m), xs);
    assert xs == Pieces(m);
    stream := stream + END;
    Assoc(Head(m), Texts(xs), END);
  }

  method AppendNames(stream: string, m: Message, ghost head: string, ghost xs: seq<Piece>)
    returns (r: string, ghost xs': seq<Piece>)
    requires stream == head + Texts(xs)
    ensures xs' == xs + Pieces(m)[2..6] && r == head + Texts(xs')
  {
    r, xs' := Append(stream, Str('t', m.to, m.to), head, xs);
    r, xs' := Append(r, Str('f', m.from, m.from), head, xs');
    r, xs' := Append(r, Str('u', m.user, m.user), head, xs');
    r, xs' := Append(r, Str('c', m.channel, m.channel), head, xs');
  }

  lemma Assoc(a: string, b: string, c: string)
    ensures (a + b) + c == a + (b + c)
  {
  }

  /** Prints one more field behind those of xs. */
  method Append(stream: string, x: Piece, ghost head: string, ghost xs: seq<Piece>)
    returns (r: string, ghost xs': seq<Piece>)
    requires stream == head + Texts(xs)
    ensures xs' == xs + [x] && r == head + Texts(xs')
  {
    xs' := xs + [x];
    r := stream + PieceText(x);
    TextsSnoc(xs, x);
    Assoc(head, Texts(xs), PieceText(x));
  }

  lemma {:induction false} TextsSnoc(xs: seq<Piece>, x: Piece)
    ensures Texts(xs + [x]) == Texts(xs) + PieceText(x)
  {
    if xs == [] {
      assert xs + [x] == [x] && [x][1..] == [];
    } else {
      assert (xs + [x])[1..] == xs[1..] + [x];
      TextsSnoc(xs[1..], x);
    }
  }

  method EscapeBody(body: string) returns (text: string)
    ensures text == Escape(body)
  {
    text := "";
    for i := 0 to |body|
      invariant text == Escape(body[..i])
    {
      assert body[..i + 1][..i] == body[..i];
      var c := body[i];
      if c == '"' {
        text := text + ['\\', '"'];
      } else if c == '\\' {
        text := text + ['\\', '\\'];
      } else if c == '\r' {
        text := text + ['\\', 'r'];
      } else if c == '\n' {
        text := text + ['\\', 'n'];
      } else {
        text := text + [c];
      }
    }
    assert body[..|body|] == body;
  }

  // ----- The parser automaton -----

  datatype Status =
    | NotStart | ObjStart | FieldStart | FieldFound | FieldEnd | ValueStart
    | ValueInt | ValueString | ValueStringEscape | ValueStringEnd | ObjEnd

  /** The parser's variables; halted means the loop was left, threw that a
      number could not be converted. */
  datatype Parser = Parser(status: Status, f: char, stream: string, msg: Message, halted: bool, threw: bool)

  const START := Parser(NotStart, '\0', "", EMPTY, false, false)

  /** The message with one more field set; None if a number does not convert.
      Unknown fields are ignored. */
  function SetField(f: char, m: Message, v: string): Option<Message>
  {
    match f
    case 'f' => Some(m.(from := v))
    case 't' => Some(m.(to := v))
    case 'u' => Some(m.(user := v))
    case 'c' => Some(m.(channel := v))
    case 'b' => Some(m.(body := v))
    case 'y' => (match ParseInt(v, INT32_MAX) case Some(n) => Some(m.(kind := n)) case None => None)
    case 's' => (match ParseInt(v, INT32_MAX) case Some(n) => Some(m.(seqNo := n)) case None => None)
    case 'l' => (match ParseInt(v, INT64_MAX) case Some(n) => Some(m.(ttl := n)) case None => None)
    case _ => Some(m)
  }

  function Commit(p: Parser, next: Status): Parser
  {
    match SetField(p.f, p.msg, p.stream)
    case Some(m) => p.(msg := m, status := next)
    case None => p.(threw := true)
  }

  function Step(p: Parser, c: char): Parser
  {
    if p.halted || p.threw then p
    else if c == ' ' then
      if p.status.ValueString? then p.(stream := p.stream + [c]) else p
    else
      match p.status
      case NotStart => if c == '{' then p.(status := ObjStart) else p.(halted := true)
      case ObjStart => if c == '"' then p.(status := FieldStart) else p.(halted := true)
      case FieldStart => if IsAlpha(c) then p.(f := c, status := FieldFound) else p.(halted := true)
      case FieldFound => if c == '"' then p.(status := FieldEnd) else p.(halted := true)
      case FieldEnd => if c == ':' then p.(status := ValueStart, stream := "") else p.(halted := true)
      case ValueStart =>
        if c == '"' then p.(status := ValueString)
        else if IsDigit(c) then p.(status := ValueInt, stream := p.stream + [c])
        else p
      case ValueString =>
        if c == '\\' then p.(status := ValueStringEscape)
        else if c == '"' then p.(status := ValueStringEnd)
        else p.(stream := p.stream + [c])
      case ValueStringEscape =>
        if c == 'n' then p.(stream := p.stream + ['\n'], status := ValueString)
        else if c == 'r' then p.(stream := p.stream + ['\r'], status := ValueString)
        else if IsPrint(c) then p.(stream := p.stream + [c], status := ValueString)
        else p.(halted := true)
      case ValueStringEnd =>
        if c == ',' then Commit(p, ObjStart)
        else if c == '}' then Commit(p, ObjEnd)
        else p.(halted := true)
      case ValueInt =>
        if c == ',' then Commit(p, ObjStart)
        else if c == '}' then Commit(p, ObjEnd)
        else p.(stream := p.stream + [c])
      case ObjEnd => p.(halted := true)
  }

  function Feed(p: Parser, s: string): Parser
  {
    if s == [] then p else Step(Feed(p, s[..|s| - 1]), s[|s| - 1])
  }

  /** The parser returns whatever fields it has set when it stops, whether or
      not it reached the end of the object; None stands for an exception. */
  function Unserialized(data: string): Option<Message>
  {
    var p := Feed(START, data);
    if p.threw then None else Some(p.msg)
  }

  method UnserializeString(data: string) returns (r: Option<Message>)
    ensures r == Unserialized(data)
  {
    var msg, status, stream, f := EMPTY, NotStart, "", '\0';
    var i := 0;
    while i < |data|
      invariant 0 <= i <= |data|
      invariant Feed(START, data[..i]) == Parser(status, f, stream, msg, false, false)
    {
      FeedNext(data, i);
      var c := data[i];
      i := i + 1;
      if c == ' ' {
        if status.ValueString? {
          stream := stream + [c];
        }
        continue;
      }
      match status {
        case NotStart =>
          if c != '{' { break; }
          status := ObjStart;
        case ObjStart =>
          if c != '"' { break; }
          status := FieldStart;
        case FieldStart =>
          if !IsAlpha(c) { break; }
          f, status := c, FieldFound;
        case FieldFound =>
          if c != '"' { break; }
          status := FieldEnd;
        case FieldEnd =>
          if c != ':' { break; }
          status, stream := ValueStart, "";
        case ValueStart =>
          if c == '"' {
            status := ValueString;
          } else if IsDigit(c) {
            status, stream := ValueInt, stream + [c];
          }
        case ValueString =>
          if c == '\\' {
            status := ValueStringEscape;
          } else if c == '"' {
            status := ValueStringEnd;
          } else {
            stream := stream + [c];
          }
        case ValueStringEscape =>
          if c == 'n' {
            stream := stream + ['\n'];
          } else if c == 'r' {
            stream := stream + ['\r'];
          } else if IsPrint(c) {
            stream := stream + [c];
          } else {
            break;
          }
          status := ValueString;
        case ValueStringEnd =>
          if c != ',' && c != '}' { break; }
          var set_ := SetField(f, msg, stream);
          if set_.None? { Halt(data, i); return None; }
          msg := set_.value;
          status := if c == ',' then ObjStart else ObjEnd;
        case ValueInt =>
          if c == ',' || c == '}' {
            var set_ := SetField(f, msg, stream);
            if set_.None? { Halt(data, i); return None; }
            msg := set_.value;
            status := if c == ',' then ObjStart else ObjEnd;
          } else {
            stream := stream + [c];
          }
        case ObjEnd =>
          break;
      }
    }
    Halt(data, i);
    r := Some(msg);
  }

  lemma FeedNext(data: string, i: nat)
    requires i < |data|
    ensures Feed(START, data[..i + 1]) == Step(Feed(START, data[..i]), data[i])
  {
    assert data[..i + 1][..i] == data[..i];
  }

  /** Once the loop is left the rest of the text does not matter. */
  lemma Halt(data: string, i: nat)
    requires i <= |data|
    requires i == |data| || Feed(START, data[..i]).halted || Feed(START, data[..i]).threw
    ensures Feed(START, data) == Feed(START, data[..i])
  {
    if i == |data| {
      assert data[..i] == data;
    } else {
      assert data == data[..i] + data[i..];
      FeedAppend(START, data[..i], data[i..]);
      FeedStopped(Feed(START, data[..i]), data[i..]);
    }
  }

  lemma {:induction false} FeedAppend(p: Parser, s: string, t: string)
    ensures Feed(p, s + t) == Feed(Feed(p, s), t)
    decreases |t|
  {
    if t == [] {
      assert s + t == s;
    } else {
      assert (s + t)[..|s + t| - 1] == s + t[..|t| - 1];
      FeedAppend(p, s, t[..|t| - 1]);
    }
  }

  lemma {:induction false} FeedStopped(p: Parser, s: string)
    requires p.halted || p.threw
    ensures Feed(p, s) == p
  {
    if s != [] { FeedStopped(p, s[..|s| - 1]); }
  }

  // ----- Parsing what was printed -----

  lemma FeedOne(p: Parser, c: char)
    ensures Feed(p, [c]) == Step(p, c)
  {
    assert [c][..0] == [];
  }

  lemma FeedCons(p: Parser, c: char, s: string)
    ensures Feed(p, [c] + s) == Feed(Step(p, c), s)
  {
    FeedAppend(p, [c], s);
    FeedOne(p, c);
  }

  /** p has read a whole field but not yet what ends it; o is the message once
      it is set, None if setting it throws. */
  ghost predicate Pending(p: Parser, o: Option<Message>)
  {
    && !p.halted
    && (if p.threw then o == None
        else (p.status.ValueInt? || p.status.ValueStringEnd?) && SetField(p.f, p.msg, p.stream) == o)
  }

  /** A parser about to read the value of field f. */
  function AtValue(f: char, m: Message): Parser
  {
    Parser(ValueStart, f, "", m, false, false)
  }

  lemma FieldName(p: Parser, f: char, s: string)
    requires p.status.ObjStart? && !p.halted && !p.threw && IsAlpha(f)
    ensures Feed(p, ['"', f, '"', ':'] + s) == Feed(AtValue(f, p.msg), s)
  {
    assert ['"', f, '"', ':'] + s == ['"'] + ([f] + (['"'] + ([':'] + s)));
    FeedCons(p, '"', [f] + (['"'] + ([':'] + s)));
    FeedCons(Step(p, '"'), f, ['"'] + ([':'] + s));
    FeedCons(Step(Step(p, '"'), f), '"', [':'] + s);
    FeedCons(Step(Step(Step(p, '"'), f), '"'), ':', s);
  }

  /** The next field after a comma. */
  lemma NextField(p: Parser, o: Option<Message>, f: char, s: string)
    requires Pending(p, o) && IsAlpha(f)
    ensures o.Some? ==> Feed(p, [',', '"', f, '"', ':'] + s) == Feed(AtValue(f, o.value), s)
    ensures o.None? ==> Pending(Feed(p, [',', '"', f, '"', ':'] + s), None)
  {
    var rest := ['"', f, '"', ':'] + s;
    assert [',', '"', f, '"', ':'] + s == [','] + rest;
    FeedCons(p, ',', rest);
    if o.Some? {
      FieldName(Step(p, ','), f, s);
    } else {
      FeedStopped(Step(p, ','), rest);
    }
  }

  lemma {:induction false} FeedDigits(p: Parser, s: string)
    requires p.status.ValueStart? && !p.halted && !p.threw
    requires s != [] && forall i :: 0 <= i < |s| ==> IsDigit(s[i])
    ensures Feed(p, s) == p.(status := ValueInt, stream := p.stream + s)
  {
    var pre := s[..|s| - 1];
    if pre == [] {
      assert Feed(p, pre) == p;
    } else {
      FeedDigits(p, pre);
    }
    assert s == pre + [s[|s| - 1]];
  }

  function Magnitude(n: int): nat
  {
    if n < 0 then -n else n
  }

  /** The sign of a number is not parsed: the minus is skipped. */
  lemma FeedNumber(f: char, m: Message, n: int)
    ensures Feed(AtValue(f, m), Printed(n)) == Parser(ValueInt, f, Decimal(Magnitude(n)), m, false, false)
  {
    FeedDigits(AtValue(f, m), Decimal(Magnitude(n)));
    FeedMinus(f, m, Decimal(Magnitude(n)));
  }

  lemma FeedMinus(f: char, m: Message, s: string)
    ensures Feed(AtValue(f, m), ['-'] + s) == Feed(AtValue(f, m), s)
  {
    FeedCons(AtValue(f, m), '-', s);
  }

  /** No double quote and no backslash. */
  ghost predicate Plain(s: string)
  {
    forall i :: 0 <= i < |s| ==> s[i] != '"' && s[i] != '\\'
  }

  lemma {:induction false} FeedPlain(p: Parser, s: string)
    requires p.status.ValueString? && !p.halted && !p.threw && Plain(s)
    ensures Feed(p, s) == p.(stream := p.stream + s)
  {
    if s == [] {
      assert p.stream + s == p.stream;
    } else {
      var pre := s[..|s| - 1];
      FeedPlain(p, pre);
      assert s == pre + [s[|s| - 1]];
    }
  }

  lemma {:induction false} FeedEscaped(p: Parser, s: string)
    requires p.status.ValueString? && !p.halted && !p.threw
    ensures Feed(p, Escape(s)) == p.(stream := p.stream + s)
  {
    if s == [] {
      assert p.stream + s == p.stream;
    } else {
      var pre, c := s[..|s| - 1], s[|s| - 1];
      FeedEscaped(p, pre);
      FeedEscapedChar(p.(stream := p.stream + pre), c);
      InTwoParts(p, Escape(pre), EscapeChar(c), pre, c);
      EscapeLast(s, pre, c);
    }
  }

  lemma EscapeLast(s: string, pre: string, c: char)
    requires s != [] && pre == s[..|s| - 1] && c == s[|s| - 1]
    ensures s == pre + [c] && Escape(s) == Escape(pre) + EscapeChar(c)
  {
  }

  lemma InTwoParts(p: Parser, e: string, d: string, s: string, c: char)
    requires Feed(p, e) == p.(stream := p.stream + s)
    requires Feed(p.(stream := p.stream + s), d) == p.(stream := p.stream + s + [c])
    ensures Feed(p, e + d) == p.(stream := p.stream + (s + [c]))
  {
    FeedAppend(p, e, d);
    assert p.stream + s + [c] == p.stream + (s + [c]);
  }

  lemma FeedEscapedChar(p: Parser, c: char)
    requires p.status.ValueString? && !p.halted && !p.threw
    ensures Feed(p, EscapeChar(c)) == p.(stream := p.stream + [c])
  {
    var e := EscapeChar(c);
    if |e| == 2 {
      assert e == [e[0]] + [e[1]];
      FeedCons(p, e[0], [e[1]]);
      FeedOne(Step(p, e[0]), e[1]);
    } else {
      FeedOne(p, c);
    }
  }

  // ----- One field after another -----

  ghost function Then(o: Option<Message>, f: char, v: string): Option<Message>
  {
    if o.None? then None else SetField(f, o.value, v)
  }

  lemma AfterInt(p: Parser, o: Option<Message>, f: char, n: int)
    requires Pending(p, o) && IsAlpha(f)
    ensures Pending(Feed(p, IntField(",", f, n)), if n == -1 then o else Then(o, f, Decimal(Magnitude(n))))
  {
    if n != -1 {
      assert IntField(",", f, n) == [',', '"', f, '"', ':'] + Printed(n);
      NextField(p, o, f, Printed(n));
      if o.Some? { FeedNumber(f, o.value, n); }
    }
  }

  lemma FeedText(f: char, m: Message, v: string, text: string)
    requires text == Escape(v) || (text == v && Plain(v))
    ensures Feed(AtValue(f, m), ['"'] + (text + ['"'])) == Parser(ValueStringEnd, f, v, m, false, false)
  {
    var q := Parser(ValueString, f, "", m, false, false);
    assert Step(AtValue(f, m), '"') == q;
    FeedCons(AtValue(f, m), '"', text + ['"']);
    FeedContent(q, v, text);
    FeedAppend(q, text, ['"']);
    FeedOne(Feed(q, text), '"');
  }

  lemma FeedContent(q: Parser, v: string, text: string)
    requires q.status.ValueString? && q.stream == "" && !q.halted && !q.threw
    requires text == Escape(v) || (text == v && Plain(v))
    ensures Feed(q, text) == q.(stream := v)
  {
    assert "" + v == v;
    if text == Escape(v) { FeedEscaped(q, v); } else { FeedPlain(q, v); }
  }

  lemma AfterText(p: Parser, o: Option<Message>, f: char, v: string, text: string)
    requires Pending(p, o) && IsAlpha(f) && (text == Escape(v) || (text == v && Plain(v)))
    ensures Pending(Feed(p, TextField(f, v, text)), if v == [] then o else Then(o, f, v))
  {
    if v != [] {
      var s := ['"'] + (text + ['"']);
      assert TextField(f, v, text) == [',', '"', f, '"', ':'] + s;
      NextField(p, o, f, s);
      if o.Some? { FeedText(f, o.value, v, text); }
    }
  }

  lemma AtEnd(p: Parser, o: Option<Message>)
    requires Pending(p, o)
    ensures var q := Feed(p, END);
            if o.None? then q.threw else !q.threw && q.msg == o.value
  {
    assert ['}', '\n'] == ['}'] + ['\n'];
    FeedCons(p, '}', ['\n']);
    FeedOne(Step(p, '}'), '\n');
  }

  ghost predicate PlainNames(m: Message)
  {
    Plain(m.to) && Plain(m.from) && Plain(m.user) && Plain(m.channel)
  }

  // ----- The whole message -----

  ghost predicate Sound(x: Piece)
  {
    IsAlpha(x.f) && (x.Str? ==> x.text == Escape(x.v) || (x.text == x.v && Plain(x.v)))
  }

  ghost function PieceSet(o: Option<Message>, x: Piece): Option<Message>
  {
    match x
    case Num(f, n) => if n == -1 then o else Then(o, f, Decimal(Magnitude(n)))
    case Str(f, v, _) => if v == [] then o else Then(o, f, v)
  }

  ghost function Sets(o: Option<Message>, xs: seq<Piece>): Option<Message>
    decreases |xs|
  {
    if xs == [] then o else Sets(PieceSet(o, xs[0]), xs[1..])
  }

  lemma {:induction false} FeedPieces(p: Parser, o: Option<Message>, xs: seq<Piece>)
    requires Pending(p, o) && forall i :: 0 <= i < |xs| ==> Sound(xs[i])
    ensures Pending(Feed(p, Texts(xs)), Sets(o, xs))
    decreases |xs|
  {
    if xs != [] {
      var x := xs[0];
      match x {
        case Num(f, n) => AfterInt(p, o, f, n);
        case Str(f, v, text) => AfterText(p, o, f, v, text);
      }
      FeedAppend(p, PieceText(x), Texts(xs[1..]));
      FeedPieces(Feed(p, PieceText(x)), PieceSet(o, x), xs[1..]);
    }
  }

  lemma TypeFirst(m: Message)
    requires m.kind != -1
    ensures Pending(Feed(START, Head(m)), SetField('y', EMPTY, Decimal(Magnitude(m.kind))))
  {
    FeedCons(START, '{', IntField("", 'y', m.kind));
    assert IntField("", 'y', m.kind) == ['"', 'y', '"', ':'] + Printed(m.kind);
    FieldName(Step(START, '{'), 'y', Printed(m.kind));
    FeedNumber('y', EMPTY, m.kind);
  }

  lemma ParsesToSets(m: Message)
    requires PlainNames(m) && m.kind != -1
    ensures Unserialized(Serialized(m)) == Sets(SetField('y', EMPTY, Decimal(Magnitude(m.kind))), Pieces(m))
  {
    TypeFirst(m);
    FieldsFollow(Head(m), SetField('y', EMPTY, Decimal(Magnitude(m.kind))), Pieces(m));
  }

  lemma FieldsFollow(head: string, o: Option<Message>, xs: seq<Piece>)
    requires Pending(Feed(START, head), o) && forall i :: 0 <= i < |xs| ==> Sound(xs[i])
    ensures Unserialized(head + (Texts(xs) + END)) == Sets(o, xs)
  {
    var p := Feed(START, head);
    FeedAppend(START, head, Texts(xs) + END);
    FeedAppend(p, Texts(xs), END);
    FeedPieces(p, o, xs);
    AtEnd(Feed(p, Texts(xs)), Sets(o, xs));
  }

  /** A number that has to be printed comes back without its sign, if it fits. */
  ghost function Unsigned(n: int): int
  {
    if n == -1 then -1 else Magnitude(n)
  }

  lemma SetsAll(m: Message)
    requires InRange(m) && m.kind != -1
    ensures Sets(SetField('y', EMPTY, Decimal(Magnitude(m.kind))), Pieces(m))
            == if Magnitude(m.kind) > INT32_MAX || Magnitude(m.seqNo) > INT32_MAX || Magnitude(m.ttl) > INT64_MAX
               then None
               else Some(m.(kind := Magnitude(m.kind), seqNo := Unsigned(m.seqNo), ttl := Unsigned(m.ttl)))
  {
    var xs := Pieces(m);
    var o0 := SetField('y', EMPTY, Decimal(Magnitude(m.kind)));
    NumbersSet(m, o0);
    var o2 := PieceSet(PieceSet(o0, xs[0]), xs[1]);
    assert xs[0..] == xs;
    SetsTwo(o0, xs, 0);
    if o2.None? {
      SetsNone(xs[2..]);
    } else {
      SetsTexts(o2.value, m);
    }
  }

  /** The three numbers, as far as they fit. */
  lemma NumbersSet(m: Message, o: Option<Message>)
    requires o == SetField('y', EMPTY, Decimal(Magnitude(m.kind)))
    ensures PieceSet(PieceSet(o, Num('s', m.seqNo)), Num('l', m.ttl))
            == if Magnitude(m.kind) > INT32_MAX || Magnitude(m.seqNo) > INT32_MAX || Magnitude(m.ttl) > INT64_MAX
               then None
               else Some(EMPTY.(kind := Magnitude(m.kind), seqNo := Unsigned(m.seqNo), ttl := Unsigned(m.ttl)))
  {
    ParseDecimal(Magnitude(m.kind), INT32_MAX);
    ParseDecimal(Magnitude(m.seqNo), INT32_MAX);
    ParseDecimal(Magnitude(m.ttl), INT64_MAX);
  }

  lemma SetsTexts(b: Message, m: Message)
    requires b == EMPTY.(kind := b.kind, seqNo := b.seqNo, ttl := b.ttl)
    ensures Sets(Some(b), Pieces(m)[2..]) == Some(m.(kind := b.kind, seqNo := b.seqNo, ttl := b.ttl))
  {
    var xs, o := Pieces(m), Some(b);
    var o4 := PieceSet(PieceSet(o, xs[2]), xs[3]);
    assert o4 == Some(b.(to := m.to, from := m.from));
    var o6 := PieceSet(PieceSet(o4, xs[4]), xs[5]);
    assert o6 == Some(b.(to := m.to, from := m.from, user := m.user, channel := m.channel));
    SetsTwo(o, xs, 2);
    SetsTwo(o4, xs, 4);
    assert xs[6..] == [xs[6]] && [xs[6]][1..] == [];
  }

  lemma {:induction false} SetsNone(xs: seq<Piece>)
    ensures Sets(None, xs) == None
  {
    if xs != [] { SetsNone(xs[1..]); }
  }

  lemma SetsTwo(o: Option<Message>, xs: seq<Piece>, k: nat)
    requires k + 2 <= |xs|
    ensures Sets(o, xs[k..]) == Sets(PieceSet(PieceSet(o, xs[k]), xs[k + 1]), xs[k + 2..])
  {
    assert xs[k..][1..] == xs[k + 1..] && xs[k + 1..][1..] == xs[k + 2..];
  }

  /** A message without a type prints as an object the parser gives up on at
      its first comma or brace. */
  lemma UntypedParsesEmpty(m: Message)
    requires m.kind == -1
    ensures Unserialized(Serialized(m)) == Some(EMPTY)
  {
    var rest := Texts(Pieces(m)) + END;
    assert Head(m) == ['{'];
    FeedCons(START, '{', rest);
    FirstChar(Pieces(m));
    assert rest == [rest[0]] + rest[1..];
    NoNameStops(rest[0], rest[1..]);
  }

  /** A comma or brace where the first name is due stops the parser. */
  lemma NoNameStops(c: char, rest: string)
    requires c == ',' || c == '}'
    ensures var q := Step(START, '{');
            Feed(q, [c] + rest) == Step(q, c) && Step(q, c).halted
  {
    var q := Step(START, '{');
    FeedCons(q, c, rest);
    FeedStopped(Step(q, c), rest);
  }

  lemma {:induction false} FirstChar(xs: seq<Piece>)
    ensures Texts(xs) == [] || Texts(xs)[0] == ','
  {
    if xs != [] { FirstChar(xs[1..]); }
  }

  /** Exactly what comes back, for every message whose names are plain; the
      body is arbitrary. */
  lemma ParsedBack(m: Message)
    requires PlainNames(m) && InRange(m)
    ensures Unserialized(Serialized(m))
            == if m.kind == -1 then Some(EMPTY)
               else if Magnitude(m.kind) > INT32_MAX || Magnitude(m.seqNo) > INT32_MAX || Magnitude(m.ttl) > INT64_MAX
               then None
               else Some(m.(kind := Magnitude(m.kind), seqNo := Unsigned(m.seqNo), ttl := Unsigned(m.ttl)))
  {
    if m.kind == -1 {
      UntypedParsesEmpty(m);
    } else {
      ParsesToSets(m);
      SetsAll(m);
    }
  }
}
