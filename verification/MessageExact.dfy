/** When printing and parsing are inverse: exactly the messages with a type,
    no negative number and no quote or backslash in a name (or nothing set). */
module MessageExact {
  import opened Common
  import opened MessageFormat

  /** The name fields. */
  ghost predicate IsName(x: char)
  {
    x == 't' || x == 'f' || x == 'u' || x == 'c'
  }

  ghost function Get(m: Message, x: char): string
  {
    match x
    case 't' => m.to
    case 'f' => m.from
    case 'u' => m.user
    case _ => m.channel
  }

  /** The parser can set no further field before it stops, given that what
      comes next is the start of a field or the end of the object. */
  ghost predicate Doomed(p: Parser)
  {
    p.halted || p.threw || (!p.status.NotStart? && !p.status.ValueInt? && !p.status.ValueStringEnd?)
  }

  /** Between two fields: name x is shorter than bound, and stays so when the
      field just read is set. */
  ghost predicate Short(p: Parser, x: char, bound: nat)
  {
    && |Get(p.msg, x)| < bound
    && (Doomed(p) || ((p.status.ValueInt? || p.status.ValueStringEnd?) && (p.f == x ==> |p.stream| < bound)))
  }

  lemma DoomedDies(p: Parser, f: char, s: string)
    requires Doomed(p) && IsAlpha(f)
    ensures var q := Feed(p, [',', '"', f, '"', ':'] + s);
            (q.halted || q.threw) && q.msg == p.msg
  {
    assert [',', '"', f, '"', ':'] + s == [','] + (['"'] + ([f] + (['"'] + ([':'] + s))));
    FeedCons(p, ',', ['"'] + ([f] + (['"'] + ([':'] + s))));
    var p1 := Step(p, ',');
    FeedCons(p1, '"', [f] + (['"'] + ([':'] + s)));
    var p2 := Step(p1, '"');
    FeedCons(p2, f, ['"'] + ([':'] + s));
    var p3 := Step(p2, f);
    FeedCons(p3, '"', [':'] + s);
    var p4 := Step(p3, '"');
    FeedCons(p4, ':', s);
    FeedStopped(Step(p4, ':'), s);
  }

  lemma ShortAtEnd(p: Parser, x: char, bound: nat)
    requires Short(p, x, bound) && IsName(x)
    ensures |Get(Feed(p, END).msg, x)| < bound
  {
    assert END == ['}'] + ['\n'];
    FeedCons(p, '}', ['\n']);
    FeedOne(Step(p, '}'), '\n');
  }

  // ----- Scanning the text of a name -----

  /** After j characters of the text y of name g: whatever is set or being
      read is shorter than what has been scanned, unless everything so far was
      plain and is being read as it stands. */
  ghost predicate Scanned(p: Parser, y: string, g: char, j: nat, x: char, bound: nat)
    requires j <= |y|
  {
    && |Get(p.msg, x)| < bound
    && (p.halted || p.threw ||
        match p.status
        case NotStart => false
        case ObjStart => j >= 2
        case FieldStart => j >= 3
        case FieldFound => j >= 4
        case FieldEnd => j >= 5
        case ValueStart => j >= 6 && p.stream == ""
        case ValueInt => |p.stream| + 6 <= j
        case ValueString => |p.stream| < j || (p.stream == y[..j] && Plain(y[..j]) && p.f == g)
        case ValueStringEscape => |p.stream| < j
        case ValueStringEnd => |p.stream| < j
        case ObjEnd => true)
  }

  lemma ScanStep(p: Parser, y: string, g: char, j: nat, x: char, bound: nat)
    requires j < |y| <= bound && IsName(x) && Scanned(p, y, g, j, x, bound)
    ensures Scanned(Step(p, y[j]), y, g, j + 1, x, bound)
  {
    assert y[..j + 1] == y[..j] + [y[j]];
  }

  lemma {:induction false} Scan(p: Parser, y: string, g: char, j: nat, x: char, bound: nat)
    requires j <= |y| <= bound && IsName(x) && |Get(p.msg, x)| < bound
    requires p == Parser(ValueString, g, "", p.msg, false, false)
    ensures Scanned(Feed(p, y[..j]), y, g, j, x, bound)
  {
    if j == 0 {
      assert y[..0] == "";
    } else {
      Scan(p, y, g, j - 1, x, bound);
      assert y[..j][..j - 1] == y[..j - 1];
      ScanStep(Feed(p, y[..j - 1]), y, g, j - 1, x, bound);
    }
  }

  /** The quote that ends a name's text, after the text was scanned. */
  lemma ScanEnd(p: Parser, y: string, g: char, x: char, bound: nat)
    requires !Plain(y) && |y| <= bound && IsName(x) && Scanned(p, y, g, |y|, x, bound)
    ensures Short(Step(p, '"'), x, bound)
  {
    assert y[..|y|] == y;
  }

  // ----- Field by field -----

  /** What the fields other than x may look like for x to stay short. */
  ghost predicate Harmless(a: Piece, x: char, bound: nat)
  {
    match a
    case Num(f, n) => f == 's' || f == 'l'
    case Str(f, v, text) =>
      || (f == 'b' && text == Escape(v))
      || (IsName(f) && text == v && (if Plain(v) then f != x else |v| <= bound))
  }

  /** The comma before a field sets the field before it. */
  lemma CommaSets(p: Parser, x: char, bound: nat)
    requires Short(p, x, bound) && !Doomed(p) && IsName(x)
    ensures var q := Step(p, ',');
            |Get(q.msg, x)| < bound && (q.threw || (q.status.ObjStart? && !q.halted))
  {
  }

  /** A parser that has set what was pending and reads the value of field f. */
  lemma IntoField(p: Parser, f: char, s: string, x: char, bound: nat) returns (q: Parser)
    requires Short(p, x, bound) && IsName(x) && IsAlpha(f)
    ensures |Get(q.msg, x)| < bound
    ensures Feed(p, [',', '"', f, '"', ':'] + s) == Feed(q, s)
    ensures q.halted || q.threw || q == AtValue(f, q.msg)
  {
    var text := [',', '"', f, '"', ':'] + s;
    if Doomed(p) {
      DoomedDies(p, f, s);
      q := Feed(p, text);
      FeedStopped(q, s);
    } else {
      var rest := ['"', f, '"', ':'] + s;
      assert text == [','] + rest;
      CommaSets(p, x, bound);
      FeedCons(p, ',', rest);
      if Step(p, ',').threw {
        q := Step(p, ',');
        FeedStopped(q, rest);
        FeedStopped(q, s);
      } else {
        FieldName(Step(p, ','), f, s);
        q := AtValue(f, Step(p, ',').msg);
      }
    }
  }

  lemma NumberKeepsShort(p: Parser, f: char, n: int, x: char, bound: nat)
    requires Short(p, x, bound) && IsName(x) && IsAlpha(f) && !IsName(f)
    ensures Short(Feed(p, IntField(",", f, n)), x, bound)
  {
    if n != -1 {
      assert IntField(",", f, n) == [',', '"', f, '"', ':'] + Printed(n);
      var q := IntoField(p, f, Printed(n), x, bound);
      if q.halted || q.threw {
        FeedStopped(q, Printed(n));
      } else {
        FeedNumber(f, q.msg, n);
      }
    }
  }

  lemma TextKeepsShort(p: Parser, f: char, v: string, text: string, x: char, bound: nat)
    requires Short(p, x, bound) && IsName(x) && Harmless(Str(f, v, text), x, bound)
    ensures Short(Feed(p, TextField(f, v, text)), x, bound)
  {
    if v != [] {
      var s := ['"'] + (text + ['"']);
      assert TextField(f, v, text) == [',', '"', f, '"', ':'] + s;
      var q := IntoField(p, f, s, x, bound);
      if q.halted || q.threw {
        FeedStopped(q, s);
      } else if f == 'b' || Plain(v) {
        FeedText(f, q.msg, v, text);
      } else {
        ImproperText(f, q.msg, v, x, bound);
      }
    }
  }

  lemma ImproperText(f: char, m: Message, v: string, x: char, bound: nat)
    requires IsName(x) && |Get(m, x)| < bound && !Plain(v) && |v| <= bound
    ensures Short(Feed(AtValue(f, m), ['"'] + (v + ['"'])), x, bound)
  {
    var r := InText(f, m);
    FeedQuoted(f, m, v);
    Scan(r, v, f, |v|, x, bound);
    assert v[..|v|] == v;
    ScanEnd(Feed(r, v), v, f, x, bound);
  }

  /** A parser that has read the quote before a name's text. */
  function InText(f: char, m: Message): Parser {
    Parser(ValueString, f, "", m, false, false)
  }

  lemma FeedQuoted(f: char, m: Message, v: string)
    ensures Feed(AtValue(f, m), ['"'] + (v + ['"'])) == Step(Feed(InText(f, m), v), '"')
  {
    FeedCons(AtValue(f, m), '"', v + ['"']);
    FeedAppend(InText(f, m), v, ['"']);
    FeedOne(Feed(InText(f, m), v), '"');
  }

  lemma {:induction false} PiecesKeepShort(p: Parser, xs: seq<Piece>, x: char, bound: nat)
    requires Short(p, x, bound) && IsName(x)
    requires forall i :: 0 <= i < |xs| ==> Harmless(xs[i], x, bound)
    ensures Short(Feed(p, Texts(xs)), x, bound)
    decreases |xs|
  {
    if xs != [] {
      var a := xs[0];
      match a {
        case Num(f, n) => NumberKeepsShort(p, f, n, x, bound);
        case Str(f, v, text) => TextKeepsShort(p, f, v, text, x, bound);
      }
      FeedAppend(p, PieceText(a), Texts(xs[1..]));
      PiecesKeepShort(Feed(p, PieceText(a)), xs[1..], x, bound);
    }
  }

  // ----- The exact condition -----

  lemma LongestImproper(m: Message) returns (x: char)
    requires !PlainNames(m)
    ensures IsName(x) && !Plain(Get(m, x))
    ensures forall g :: IsName(g) && !Plain(Get(m, g)) ==> |Get(m, g)| <= |Get(m, x)|
  {
    x := if !Plain(m.to) then 't' else if !Plain(m.from) then 'f' else if !Plain(m.user) then 'u' else 'c';
    if !Plain(m.from) && |m.from| > |Get(m, x)| { x := 'f'; }
    if !Plain(m.user) && |m.user| > |Get(m, x)| { x := 'u'; }
    if !Plain(m.channel) && |m.channel| > |Get(m, x)| { x := 'c'; }
  }

  /** A quote or backslash in a name breaks the round trip, whatever the
      parser makes of the rest: unless it throws, the longest such name comes
      back shorter. */
  lemma ImproperComesBackShorter(m: Message, x: char)
    requires m.kind != -1 && IsName(x) && !Plain(Get(m, x))
    requires forall g :: IsName(g) && !Plain(Get(m, g)) ==> |Get(m, g)| <= |Get(m, x)|
    ensures var r := Unserialized(Serialized(m)); r.Some? ==> |Get(r.value, x)| < |Get(m, x)|
  {
    var bound := |Get(m, x)|;
    var p := Feed(START, Head(m));
    HeadShort(m, x, bound);
    PiecesHarmless(m, x);
    PiecesKeepShort(p, Pieces(m), x, bound);
    FeedAppend(START, Head(m), Texts(Pieces(m)) + END);
    FeedAppend(p, Texts(Pieces(m)), END);
    ShortAtEnd(Feed(p, Texts(Pieces(m))), x, bound);
  }

  lemma HeadShort(m: Message, x: char, bound: nat)
    requires m.kind != -1 && IsName(x) && bound > 0
    ensures Short(Feed(START, Head(m)), x, bound)
  {
    FeedCons(START, '{', IntField("", 'y', m.kind));
    assert IntField("", 'y', m.kind) == ['"', 'y', '"', ':'] + Printed(m.kind);
    FieldName(Step(START, '{'), 'y', Printed(m.kind));
    FeedNumber('y', EMPTY, m.kind);
  }

  lemma PiecesHarmless(m: Message, x: char)
    requires IsName(x) && !Plain(Get(m, x))
    requires forall g :: IsName(g) && !Plain(Get(m, g)) ==> |Get(m, g)| <= |Get(m, x)|
    ensures forall i :: 0 <= i < |Pieces(m)| ==> Harmless(Pieces(m)[i], x, |Get(m, x)|)
  {
    assert IsName('t') && IsName('f') && IsName('u') && IsName('c');
    assert Get(m, 't') == m.to && Get(m, 'f') == m.from && Get(m, 'u') == m.user && Get(m, 'c') == m.channel;
  }

  /** The round trip holds exactly for the empty message and for messages with
      a type whose numbers are not negative and whose names contain neither
      quotes nor backslashes; the body may be anything. */
  lemma RoundTripExactly(m: Message)
    requires InRange(m)
    ensures Unserialized(Serialized(m)) == Some(m)
            <==> m == EMPTY || (m.kind >= 0 && m.seqNo >= -1 && m.ttl >= -1 && PlainNames(m))
  {
    if PlainNames(m) {
      ParsedBack(m);
    } else if m.kind == -1 {
      UntypedParsesEmpty(m);
    } else {
      var x := LongestImproper(m);
      ImproperComesBackShorter(m, x);
    }
  }
}
