/** The lexical pass that locates the keys of the root object of a JSON text,
    and the grammar of sections 2, 4 and 7 of RFC 8259 it must agree with. */
module JsonKeys {
  import opened Numbers
  import opened Outcomes

  const QUOTE: Byte := 0x22
  const COMMA: Byte := 0x2C
  const OPEN_BRACKET: Byte := 0x5B
  const BACKSLASH: Byte := 0x5C
  const CLOSE_BRACKET: Byte := 0x5D
  const OPEN_BRACE: Byte := 0x7B
  const CLOSE_BRACE: Byte := 0x7D

  /** Start and length. */
  type Span = (nat, nat)

  // The scanner

  predicate IsAsciiWhitespace(b: Byte) {
    b == 0x20 || b == 0x09 || b == 0x0A || b == 0x0C || b == 0x0D
  }

  /** Where the search for a closing quote stops; an escape skips two bytes. */
  function StringEnd(bytes: Bytes, i: nat): (end: nat)
    ensures i <= end
    decreases |bytes| - i
  {
    if i >= |bytes| || bytes[i] == QUOTE then i
    else StringEnd(bytes, i + if bytes[i] == BACKSLASH then 2 else 1)
  }

  function SkipSpace(bytes: Bytes, i: nat): (end: nat)
    requires i <= |bytes|
    ensures i <= end <= |bytes|
    decreases |bytes| - i
  {
    if i < |bytes| && IsAsciiWhitespace(bytes[i]) then SkipSpace(bytes, i + 1) else i
  }

  /** One byte past the literal that starts at `cursor`. */
  function LiteralEnd(bytes: Bytes, cursor: nat): (end: nat)
    requires cursor < |bytes|
    ensures cursor < end <= |bytes|
  {
    Min(StringEnd(bytes, cursor + 1) + 1, |bytes|)
  }

  predicate ColonFollows(bytes: Bytes, i: nat)
    requires i <= |bytes|
  {
    SkipSpace(bytes, i) < |bytes| && bytes[SkipSpace(bytes, i)] == COLON
  }

  function Record<N>(bytes: Bytes, nameOf: Bytes -> Option<N>, cursor: nat, containers: Bytes, spans: map<N, Span>)
    : map<N, Span>
    requires cursor < |bytes|
  {
    var end := LiteralEnd(bytes, cursor);
    if containers == [OPEN_BRACE] && ColonFollows(bytes, end) then
      match nameOf(bytes[cursor..end])
      case None => spans
      case Some(name) => spans[name := (cursor, end - cursor)]
    else spans
  }

  function Nest(containers: Bytes, b: Byte): Bytes {
    if b == OPEN_BRACE || b == OPEN_BRACKET then containers + [b]
    else if containers != [] && ((b == CLOSE_BRACE && containers[|containers| - 1] == OPEN_BRACE)
                                 || (b == CLOSE_BRACKET && containers[|containers| - 1] == OPEN_BRACKET))
      then containers[..|containers| - 1]
    else containers
  }

  /** The spans recorded from `cursor` on. */
  function Scan<N>(bytes: Bytes, nameOf: Bytes -> Option<N>, cursor: nat, containers: Bytes, spans: map<N, Span>)
    : map<N, Span>
    decreases |bytes| - cursor
  {
    if cursor >= |bytes| then spans
    else if bytes[cursor] == QUOTE then
      Scan(bytes, nameOf, LiteralEnd(bytes, cursor), containers, Record(bytes, nameOf, cursor, containers, spans))
    else Scan(bytes, nameOf, cursor + 1, Nest(containers, bytes[cursor]), spans)
  }

  lemma StringEndAt(bytes: Bytes, i: nat)
    ensures StringEnd(bytes, i) == if i >= |bytes| || bytes[i] == QUOTE then i
                                   else StringEnd(bytes, i + if bytes[i] == BACKSLASH then 2 else 1)
  {
  }

  lemma SkipSpaceAt(bytes: Bytes, i: nat)
    requires i <= |bytes|
    ensures SkipSpace(bytes, i) == if i < |bytes| && IsAsciiWhitespace(bytes[i]) then SkipSpace(bytes, i + 1) else i
  {
  }

  lemma ScanQuote<N>(bytes: Bytes, nameOf: Bytes -> Option<N>, c: nat, containers: Bytes, spans: map<N, Span>)
    requires c < |bytes| && bytes[c] == QUOTE
    ensures Scan(bytes, nameOf, c, containers, spans)
            == Scan(bytes, nameOf, LiteralEnd(bytes, c), containers, Record(bytes, nameOf, c, containers, spans))
  {
    hide LiteralEnd, Record;
  }

  lemma ScanEnds<N>(bytes: Bytes, nameOf: Bytes -> Option<N>, containers: Bytes, spans: map<N, Span>)
    ensures Scan(bytes, nameOf, |bytes|, containers, spans) == spans
  {
  }

  lemma ScanOther<N>(bytes: Bytes, nameOf: Bytes -> Option<N>, c: nat, containers: Bytes, spans: map<N, Span>)
    requires c < |bytes| && bytes[c] != QUOTE
    ensures Scan(bytes, nameOf, c, containers, spans)
            == Scan(bytes, nameOf, c + 1, Nest(containers, bytes[c]), spans)
  {
    hide Nest;
  }

  /** The scanner's loop. `nameOf` decodes a literal and keeps valid names. */
  method TopLevelParameterSpans<N>(bytes: Bytes, nameOf: Bytes -> Option<N>) returns (spans: map<N, Span>)
    ensures spans == Scan(bytes, nameOf, 0, [], map[])
  {
    hide Scan, StringEnd, SkipSpace, IsAsciiWhitespace;
    var containers: Bytes := [];
    spans := map[];
    var cursor: nat := 0;
    while cursor < |bytes|
      invariant cursor <= |bytes|
      invariant Scan(bytes, nameOf, cursor, containers, spans) == Scan(bytes, nameOf, 0, [], map[])
    {
      var b := bytes[cursor];
      if b == QUOTE {
        ScanQuote(bytes, nameOf, cursor, containers, spans);
        var start := cursor;
        var i := cursor + 1;
        while i < |bytes| && bytes[i] != QUOTE
          invariant start < i && StringEnd(bytes, i) == StringEnd(bytes, start + 1)
          decreases |bytes| - i
        {
          StringEndAt(bytes, i);
          i := i + if bytes[i] == BACKSLASH then 2 else 1;
        }
        StringEndAt(bytes, i);
        var end := Min(i + 1, |bytes|);
        var after := end;
        while after < |bytes| && IsAsciiWhitespace(bytes[after])
          invariant end <= after <= |bytes| && SkipSpace(bytes, after) == SkipSpace(bytes, end)
        {
          SkipSpaceAt(bytes, after);
          after := after + 1;
        }
        SkipSpaceAt(bytes, after);
        ghost var before := spans;
        if containers == [OPEN_BRACE] && after < |bytes| && bytes[after] == COLON {
          match nameOf(bytes[start..end]) {
            case None =>
            case Some(name) =>
              spans := spans[name := (start, end - start)];
          }
        }
        assert spans == Record(bytes, nameOf, start, containers, before);
        cursor := end;
      } else {
        ScanOther(bytes, nameOf, cursor, containers, spans);
        if b == OPEN_BRACE || b == OPEN_BRACKET {
          containers := containers + [b];
        } else if b == CLOSE_BRACE && containers != [] && containers[|containers| - 1] == OPEN_BRACE {
          containers := containers[..|containers| - 1];
        } else if b == CLOSE_BRACKET && containers != [] && containers[|containers| - 1] == OPEN_BRACKET {
          containers := containers[..|containers| - 1];
        }
        cursor := cursor + 1;
      }
    }
    ScanEnds(bytes, nameOf, containers, spans);
  }

  // The grammar

  /** One character of a string: itself, or an escape. */
  datatype Item = Plain(b: Byte) | Escaped(b: Byte) | Unicode(digits: Bytes)

  /** A value with all of its whitespace. Numbers and the literal names are
      atoms: bytes that are neither structural nor quotes nor whitespace. */
  datatype Value =
    | Atom(text: Bytes)
    | Text(items: seq<Item>)
    | Array(inner: Bytes, elements: seq<Element>)
    | Object(inner: Bytes, members: seq<Member>)

  datatype Element = Element(before: Bytes, value: Value, after: Bytes)

  datatype Member = Member(before: Bytes, key: seq<Item>, gap: Bytes, space: Bytes, value: Value, after: Bytes)

  predicate IsSpace(b: Byte) {
    b == 0x20 || b == 0x09 || b == 0x0A || b == 0x0D
  }

  predicate Space(ws: Bytes) {
    forall i :: 0 <= i < |ws| ==> IsSpace(ws[i])
  }

  predicate Structural(b: Byte) {
    b == QUOTE || b == COMMA || b == COLON || b == OPEN_BRACKET || b == CLOSE_BRACKET || b == OPEN_BRACE
    || b == CLOSE_BRACE
  }

  predicate WfAtom(text: Bytes) {
    text != [] && forall i :: 0 <= i < |text| ==> !Structural(text[i]) && !IsAsciiWhitespace(text[i])
  }

  predicate HexDigit(b: Byte) {
    0x30 <= b <= 0x39 || 0x41 <= b <= 0x46 || 0x61 <= b <= 0x66
  }

  predicate WfItem(item: Item) {
    match item
    case Plain(b) => b >= 0x20 && b != QUOTE && b != BACKSLASH
    case Escaped(b) => b in [QUOTE, BACKSLASH, 0x2F, 0x62, 0x66, 0x6E, 0x72, 0x74]
    case Unicode(digits) => |digits| == 4 && forall i :: 0 <= i < 4 ==> HexDigit(digits[i])
  }

  predicate WfItems(items: seq<Item>) {
    forall i :: 0 <= i < |items| ==> WfItem(items[i])
  }

  predicate WfValue(v: Value) {
    match v
    case Atom(text) => WfAtom(text)
    case Text(items) => WfItems(items)
    case Array(inner, elements) =>
      Space(inner) && forall i :: 0 <= i < |elements| ==>
        Space(elements[i].before) && Space(elements[i].after) && WfValue(elements[i].value)
    case Object(inner, members) =>
      Space(inner) && forall i :: 0 <= i < |members| ==> WfMember(members[i])
  }

  predicate WfMember(m: Member) {
    Space(m.before) && WfItems(m.key) && Space(m.gap) && Space(m.space) && WfValue(m.value) && Space(m.after)
  }

  function ItemText(item: Item): Bytes {
    match item
    case Plain(b) => [b]
    case Escaped(b) => [BACKSLASH, b]
    case Unicode(digits) => [BACKSLASH, 0x75] + digits
  }

  function ItemsText(items: seq<Item>): Bytes {
    if items == [] then [] else ItemText(items[0]) + ItemsText(items[1..])
  }

  function Literal(items: seq<Item>): Bytes {
    [QUOTE] + ItemsText(items) + [QUOTE]
  }

  function Arity(v: Value): nat {
    match v
    case Array(_, elements) => |elements|
    case Object(_, members) => |members|
    case _ => 0
  }

  function ValueText(v: Value): Bytes
    decreases v, Arity(v) + 1
  {
    match v
    case Atom(text) => text
    case Text(items) => Literal(items)
    case Array(inner, elements) =>
      [OPEN_BRACKET] + (if elements == [] then inner else ElementsText(v, |elements|)) + [CLOSE_BRACKET]
    case Object(inner, members) =>
      [OPEN_BRACE] + (if members == [] then inner else MembersText(v, |members|)) + [CLOSE_BRACE]
  }

  function Separator(n: nat): Bytes {
    if n == 0 then [] else [COMMA]
  }

  /** The first `n` elements, separated by commas. */
  function ElementsText(v: Value, n: nat): Bytes
    requires v.Array? && n <= |v.elements|
    decreases v, n
  {
    if n == 0 then []
    else
      var e := v.elements[n - 1];
      ElementsText(v, n - 1) + Separator(n - 1) + e.before + ValueText(e.value) + e.after
  }

  function MembersText(v: Value, n: nat): Bytes
    requires v.Object? && n <= |v.members|
    decreases v, n
  {
    if n == 0 then []
    else
      var m := v.members[n - 1];
      MembersText(v, n - 1) + Separator(n - 1)
      + m.before + Literal(m.key) + m.gap + [COLON] + m.space + ValueText(m.value) + m.after
  }

  // Scanning text at a position

  ghost predicate At(bytes: Bytes, c: nat, text: Bytes) {
    c + |text| <= |bytes| && bytes[c..c + |text|] == text
  }

  lemma AtSplit(bytes: Bytes, c: nat, a: Bytes, b: Bytes)
    requires At(bytes, c, a + b)
    ensures At(bytes, c, a) && At(bytes, c + |a|, b)
  {
    var t := bytes[c..c + |a + b|];
    assert t[..|a|] == a && t[|a|..] == b;
    assert bytes[c..c + |a|] == t[..|a|];
    assert bytes[c + |a|..c + |a| + |b|] == t[|a|..];
  }

  lemma AtByte(bytes: Bytes, c: nat, text: Bytes, i: nat)
    requires At(bytes, c, text) && i < |text|
    ensures c + i < |bytes| && bytes[c + i] == text[i]
  {
    assert bytes[c..c + |text|][i] == text[i];
  }

  /** A byte the scanner passes over. */
  predicate Passive(b: Byte) {
    b != QUOTE && b != OPEN_BRACE && b != CLOSE_BRACE && b != OPEN_BRACKET && b != CLOSE_BRACKET
  }

  ghost predicate AllPassive(text: Bytes) {
    forall i :: 0 <= i < |text| ==> Passive(text[i])
  }

  lemma {:induction false} ScanPassive<N>(bytes: Bytes, nameOf: Bytes -> Option<N>, c: nat, containers: Bytes,
                                          spans: map<N, Span>, text: Bytes)
    requires At(bytes, c, text) && AllPassive(text)
    ensures Scan(bytes, nameOf, c, containers, spans) == Scan(bytes, nameOf, c + |text|, containers, spans)
    decreases |text|
  {
    if text != [] {
      AtByte(bytes, c, text, 0);
      assert text == text[..1] + text[1..];
      AtSplit(bytes, c, text[..1], text[1..]);
      ScanPassive(bytes, nameOf, c + 1, containers, spans, text[1..]);
    }
  }

  lemma SpacePassive(ws: Bytes)
    requires Space(ws)
    ensures AllPassive(ws)
  {
  }

  lemma {:induction false} SkipsSpace(bytes: Bytes, c: nat, ws: Bytes)
    requires At(bytes, c, ws) && Space(ws)
    ensures SkipSpace(bytes, c) == SkipSpace(bytes, c + |ws|)
    decreases |ws|
  {
    if ws != [] {
      AtByte(bytes, c, ws, 0);
      assert ws == ws[..1] + ws[1..];
      AtSplit(bytes, c, ws[..1], ws[1..]);
      SkipsSpace(bytes, c + 1, ws[1..]);
    }
  }

  /** White space and then `b`. */
  lemma ColonAfterSpace(bytes: Bytes, c: nat, ws: Bytes)
    requires At(bytes, c, ws) && Space(ws) && c + |ws| < |bytes| && !IsAsciiWhitespace(bytes[c + |ws|])
    ensures ColonFollows(bytes, c) <==> bytes[c + |ws|] == COLON
  {
    SkipsSpace(bytes, c, ws);
  }

  lemma {:induction false} EndsItems(bytes: Bytes, c: nat, items: seq<Item>)
    requires WfItems(items) && At(bytes, c, ItemsText(items) + [QUOTE])
    ensures StringEnd(bytes, c) == c + |ItemsText(items)|
    decreases |items|
  {
    if items == [] {
      AtByte(bytes, c, [QUOTE], 0);
    } else {
      var first, rest := ItemText(items[0]), ItemsText(items[1..]);
      assert ItemsText(items) + [QUOTE] == first + (rest + [QUOTE]);
      AtSplit(bytes, c, first, rest + [QUOTE]);
      EndsItems(bytes, c + |first|, items[1..]);
      EndsItem(bytes, c, items[0]);
    }
  }

  lemma EndsItem(bytes: Bytes, c: nat, item: Item)
    requires WfItem(item) && At(bytes, c, ItemText(item))
    ensures StringEnd(bytes, c) == StringEnd(bytes, c + |ItemText(item)|)
  {
    var text := ItemText(item);
    AtByte(bytes, c, text, 0);
    if item.Unicode? {
      AtByte(bytes, c, text, 2);
      AtByte(bytes, c, text, 3);
      AtByte(bytes, c, text, 4);
      AtByte(bytes, c, text, 5);
      assert HexDigit(item.digits[0]) && HexDigit(item.digits[1]) && HexDigit(item.digits[2])
             && HexDigit(item.digits[3]);
      assert StringEnd(bytes, c + 2) == StringEnd(bytes, c + 4);
      assert StringEnd(bytes, c + 4) == StringEnd(bytes, c + 6);
    }
  }

  lemma ScanLiteral<N>(bytes: Bytes, nameOf: Bytes -> Option<N>, c: nat, containers: Bytes, spans: map<N, Span>,
                       items: seq<Item>)
    requires WfItems(items) && At(bytes, c, Literal(items))
    ensures var end := c + |Literal(items)|;
            && c < |bytes| && LiteralEnd(bytes, c) == end && bytes[c..end] == Literal(items)
            && Scan(bytes, nameOf, c, containers, spans)
               == Scan(bytes, nameOf, end, containers, Record(bytes, nameOf, c, containers, spans))
  {
    hide Scan, Record, StringEnd, ItemsText, WfItems;
    var inside := ItemsText(items);
    AtByte(bytes, c, Literal(items), 0);
    assert Literal(items) == [QUOTE] + (inside + [QUOTE]);
    AtSplit(bytes, c, [QUOTE], inside + [QUOTE]);
    EndsItems(bytes, c + 1, items);
    ScanQuote(bytes, nameOf, c, containers, spans);
  }

  // Values change nothing; members of the root object are recorded

  /** What follows is not a colon, so a string that ends here is no key. */
  ghost predicate EndsValue(bytes: Bytes, c: nat) {
    c <= |bytes| && !ColonFollows(bytes, c)
  }

  /** White space and then a comma or a closing bracket. */
  ghost predicate Closes(bytes: Bytes, c: nat) {
    c < |bytes| && (bytes[c] == COMMA || bytes[c] == CLOSE_BRACKET || bytes[c] == CLOSE_BRACE)
  }

  lemma ClosesAfterSpace(bytes: Bytes, c: nat, ws: Bytes)
    requires At(bytes, c, ws) && Space(ws) && Closes(bytes, c + |ws|)
    ensures EndsValue(bytes, c)
  {
    ColonAfterSpace(bytes, c, ws);
  }

  lemma {:induction false} ScanValue<N>(bytes: Bytes, nameOf: Bytes -> Option<N>, c: nat, containers: Bytes,
                                        spans: map<N, Span>, v: Value)
    requires WfValue(v) && At(bytes, c, ValueText(v)) && containers != [] && EndsValue(bytes, c + |ValueText(v)|)
    ensures Scan(bytes, nameOf, c, containers, spans) == Scan(bytes, nameOf, c + |ValueText(v)|, containers, spans)
    decreases v, Arity(v) + 2
  {
    match v
    case Atom(text) =>
      ScanAtom(bytes, nameOf, c, containers, spans, text);
    case Text(items) =>
      ScanText(bytes, nameOf, c, containers, spans, items);
    case Array(_, _) =>
      ScanArray(bytes, nameOf, c, containers, spans, v);
    case Object(_, _) =>
      ScanObject(bytes, nameOf, c, containers, spans, v);
  }

  lemma ScanAtom<N>(bytes: Bytes, nameOf: Bytes -> Option<N>, c: nat, containers: Bytes, spans: map<N, Span>,
                    text: Bytes)
    requires WfAtom(text) && At(bytes, c, text)
    ensures Scan(bytes, nameOf, c, containers, spans) == Scan(bytes, nameOf, c + |text|, containers, spans)
  {
    hide Scan, At;
    AtomPassive(text);
    ScanPassive(bytes, nameOf, c, containers, spans, text);
  }

  lemma ScanText<N>(bytes: Bytes, nameOf: Bytes -> Option<N>, c: nat, containers: Bytes, spans: map<N, Span>,
                    items: seq<Item>)
    requires WfItems(items) && At(bytes, c, Literal(items)) && EndsValue(bytes, c + |Literal(items)|)
    ensures Scan(bytes, nameOf, c, containers, spans) == Scan(bytes, nameOf, c + |Literal(items)|, containers, spans)
  {
    hide Scan, At, Literal, WfItems, EndsValue;
    ScanLiteral(bytes, nameOf, c, containers, spans, items);
    NoKey(bytes, nameOf, c, containers, spans, items);
  }

  lemma {:induction false} ScanArray<N>(bytes: Bytes, nameOf: Bytes -> Option<N>, c: nat, containers: Bytes,
                                        spans: map<N, Span>, v: Value)
    requires WfValue(v) && v.Array? && At(bytes, c, ValueText(v)) && containers != []
    ensures Scan(bytes, nameOf, c, containers, spans) == Scan(bytes, nameOf, c + |ValueText(v)|, containers, spans)
    decreases v, Arity(v) + 1
  {
    hide Scan, At, ElementsText, Closes;
    BracketedParts(bytes, c, OPEN_BRACKET, Body(v), CLOSE_BRACKET);
    ScanOpen(bytes, nameOf, c, containers, spans, OPEN_BRACKET, CLOSE_BRACKET);
    if v.elements == [] {
      SpacePassive(v.inner);
      ScanPassive(bytes, nameOf, c + 1, containers + [OPEN_BRACKET], spans, v.inner);
    } else {
      ScanElements(bytes, nameOf, c + 1, containers + [OPEN_BRACKET], spans, v, |v.elements|);
    }
    ScanClose(bytes, nameOf, c + 1 + |Body(v)|, containers, spans, OPEN_BRACKET, CLOSE_BRACKET);
  }

  lemma {:induction false} ScanObject<N>(bytes: Bytes, nameOf: Bytes -> Option<N>, c: nat, containers: Bytes,
                                         spans: map<N, Span>, v: Value)
    requires WfValue(v) && v.Object? && At(bytes, c, ValueText(v)) && containers != []
    ensures Scan(bytes, nameOf, c, containers, spans) == Scan(bytes, nameOf, c + |ValueText(v)|, containers, spans)
    decreases v, Arity(v) + 1
  {
    hide Scan, At, MembersText, Closes, WfMember;
    BracketedParts(bytes, c, OPEN_BRACE, Body(v), CLOSE_BRACE);
    ScanOpen(bytes, nameOf, c, containers, spans, OPEN_BRACE, CLOSE_BRACE);
    assert containers + [OPEN_BRACE] != [OPEN_BRACE] by {
      assert |containers + [OPEN_BRACE]| > 1;
    }
    if v.members == [] {
      SpacePassive(v.inner);
      ScanPassive(bytes, nameOf, c + 1, containers + [OPEN_BRACE], spans, v.inner);
    } else {
      ScanMembers(bytes, nameOf, c + 1, containers + [OPEN_BRACE], spans, v, |v.members|);
    }
    ScanClose(bytes, nameOf, c + 1 + |Body(v)|, containers, spans, OPEN_BRACE, CLOSE_BRACE);
  }

  /** A string that no colon follows is not recorded. */
  lemma NoKey<N>(bytes: Bytes, nameOf: Bytes -> Option<N>, c: nat, containers: Bytes, spans: map<N, Span>,
                 items: seq<Item>)
    requires c < |bytes| && LiteralEnd(bytes, c) == c + |Literal(items)| && EndsValue(bytes, c + |Literal(items)|)
    ensures Record(bytes, nameOf, c, containers, spans) == spans
  {
  }

  lemma AtomPassive(text: Bytes)
    requires WfAtom(text)
    ensures AllPassive(text)
  {
  }

  ghost predicate Brackets(open: Byte, close: Byte) {
    (open == OPEN_BRACKET && close == CLOSE_BRACKET) || (open == OPEN_BRACE && close == CLOSE_BRACE)
  }

  lemma BracketedParts(bytes: Bytes, c: nat, open: Byte, body: Bytes, close: Byte)
    requires At(bytes, c, [open] + body + [close]) && Brackets(open, close)
    ensures c < |bytes| && bytes[c] == open && At(bytes, c + 1, body)
    ensures Closes(bytes, c + 1 + |body|) && bytes[c + 1 + |body|] == close
  {
    assert [open] + body + [close] == [open] + (body + [close]);
    AtSplit(bytes, c, [open], body + [close]);
    AtSplit(bytes, c + 1, body, [close]);
    AtByte(bytes, c, [open], 0);
    AtByte(bytes, c + 1 + |body|, [close], 0);
  }

  /** A bracketed text opens a container and closes the same one. */
  lemma ScanOpen<N>(bytes: Bytes, nameOf: Bytes -> Option<N>, c: nat, containers: Bytes, spans: map<N, Span>,
                    open: Byte, close: Byte)
    requires c < |bytes| && bytes[c] == open && Brackets(open, close)
    ensures Scan(bytes, nameOf, c, containers, spans) == Scan(bytes, nameOf, c + 1, containers + [open], spans)
  {
  }

  lemma ScanClose<N>(bytes: Bytes, nameOf: Bytes -> Option<N>, c: nat, containers: Bytes, spans: map<N, Span>,
                     open: Byte, close: Byte)
    requires c < |bytes| && bytes[c] == close && Brackets(open, close)
    ensures Scan(bytes, nameOf, c, containers + [open], spans) == Scan(bytes, nameOf, c + 1, containers, spans)
  {
    assert (containers + [open])[..|containers|] == containers;
  }

  function Body(v: Value): Bytes
    requires v.Array? || v.Object?
  {
    match v
    case Array(inner, elements) => if elements == [] then inner else ElementsText(v, |elements|)
    case Object(inner, members) => if members == [] then inner else MembersText(v, |members|)
  }

  lemma {:induction false} ScanElements<N>(bytes: Bytes, nameOf: Bytes -> Option<N>, c: nat, containers: Bytes,
                                           spans: map<N, Span>,
                                           v: Value, n: nat)
    requires WfValue(v) && v.Array? && n <= |v.elements|
    requires At(bytes, c, ElementsText(v, n)) && containers != [] && (n > 0 ==> Closes(bytes, c + |ElementsText(v, n)|))
    ensures Scan(bytes, nameOf, c, containers, spans)
            == Scan(bytes, nameOf, c + |ElementsText(v, n)|, containers, spans)
    decreases v, n
  {
    hide Scan, ValueText, Space, At, ElementsText, Closes, EndsValue;
    if n == 0 {
      NoElements(v);
    } else {
      var e := v.elements[n - 1];
      var head, comma, text := ElementsText(v, n - 1), Separator(n - 1), ValueText(e.value);
      ElementParts(bytes, c, v, n);
      var at := c + |head| + |comma| + |e.before|;
      ScanElements(bytes, nameOf, c, containers, spans, v, n - 1);
      SeparatorPassive(n - 1);
      SpacePassive(e.before);
      SpacePassive(e.after);
      ScanPassive(bytes, nameOf, c + |head|, containers, spans, comma);
      ScanPassive(bytes, nameOf, c + |head| + |comma|, containers, spans, e.before);
      ClosesAfterSpace(bytes, at + |text|, e.after);
      ScanValue(bytes, nameOf, at, containers, spans, e.value);
      ScanPassive(bytes, nameOf, at + |text|, containers, spans, e.after);
    }
  }

  lemma NoElements(v: Value)
    ensures v.Array? ==> ElementsText(v, 0) == []
    ensures v.Object? ==> MembersText(v, 0) == []
  {
  }

  lemma SeparatorPassive(n: nat)
    ensures AllPassive(Separator(n))
  {
  }

  lemma ElementParts(bytes: Bytes, c: nat, v: Value, n: nat)
    requires v.Array? && 0 < n <= |v.elements| && At(bytes, c, ElementsText(v, n))
    ensures var e := v.elements[n - 1];
            var head, comma, text := ElementsText(v, n - 1), Separator(n - 1), ValueText(e.value);
            var at := c + |head| + |comma| + |e.before|;
            && c + |ElementsText(v, n)| == at + |text| + |e.after|
            && At(bytes, c, head) && At(bytes, c + |head|, comma) && At(bytes, c + |head| + |comma|, e.before)
            && At(bytes, at, text) && At(bytes, at + |text|, e.after)
            && (n > 1 ==> Closes(bytes, c + |head|))
  {
    hide At, ValueText;
    var e := v.elements[n - 1];
    var head, comma, text := ElementsText(v, n - 1), Separator(n - 1), ValueText(e.value);
    AtSplit(bytes, c, head + comma + e.before + text, e.after);
    AtSplit(bytes, c, head + comma + e.before, text);
    AtSplit(bytes, c, head + comma, e.before);
    AtSplit(bytes, c, head, comma);
    if n > 1 {
      AtByte(bytes, c + |head|, comma, 0);
    }
  }

  /** What scanning a member leaves behind. */
  function Recorded<N>(nameOf: Bytes -> Option<N>, containers: Bytes, spans: map<N, Span>, start: nat, key: seq<Item>)
    : map<N, Span>
  {
    if containers == [OPEN_BRACE] && nameOf(Literal(key)).Some?
      then spans[nameOf(Literal(key)).value := (start, |Literal(key)|)]
    else spans
  }

  /** Where the key literal of the `i`-th member starts. */
  function KeyStart(v: Value, c: nat, i: nat): nat
    requires v.Object? && i < |v.members|
  {
    c + |MembersText(v, i)| + |Separator(i)| + |v.members[i].before|
  }

  /** The spans recorded for the first `n` members. */
  function KeySpans<N>(nameOf: Bytes -> Option<N>, containers: Bytes, spans: map<N, Span>, v: Value, c: nat, n: nat)
    : map<N, Span>
    requires v.Object? && n <= |v.members|
    decreases n
  {
    if n == 0 then spans
    else Recorded(nameOf, containers, KeySpans(nameOf, containers, spans, v, c, n - 1), KeyStart(v, c, n - 1),
                  v.members[n - 1].key)
  }

  lemma {:induction false} ScanMembers<N>(bytes: Bytes, nameOf: Bytes -> Option<N>, c: nat, containers: Bytes,
                                          spans: map<N, Span>,
                                          v: Value, n: nat)
    requires WfValue(v) && v.Object? && n <= |v.members|
    requires At(bytes, c, MembersText(v, n)) && containers != [] && (n > 0 ==> Closes(bytes, c + |MembersText(v, n)|))
    ensures Scan(bytes, nameOf, c, containers, spans)
            == Scan(bytes, nameOf, c + |MembersText(v, n)|, containers, KeySpans(nameOf, containers, spans, v, c, n))
    ensures containers != [OPEN_BRACE] ==> KeySpans(nameOf, containers, spans, v, c, n) == spans
    decreases v, n
  {
    hide Scan, ValueText, Space, Literal, Recorded, At, MembersText, Closes, EndsValue, KeyAt;
    if n == 0 {
      NoElements(v);
    } else {
      var m := v.members[n - 1];
      var head, comma, text := MembersText(v, n - 1), Separator(n - 1), ValueText(m.value);
      MemberParts(bytes, c, v, n);
      ScanMembers(bytes, nameOf, c, containers, spans, v, n - 1);
      var before := KeySpans(nameOf, containers, spans, v, c, n - 1);
      SeparatorPassive(n - 1);
      ScanPassive(bytes, nameOf, c + |head|, containers, before, comma);
      var start := KeyStart(v, c, n - 1);
      var at := start + |Literal(m.key)| + |m.gap| + 1 + |m.space|;
      ScanKey(bytes, nameOf, c + |head| + |comma|, containers, before, m);
      var after := Recorded(nameOf, containers, before, start, m.key);
      SpacePassive(m.after);
      ClosesAfterSpace(bytes, at + |text|, m.after);
      ScanValue(bytes, nameOf, at, containers, after, m.value);
      ScanPassive(bytes, nameOf, at + |text|, containers, after, m.after);
      NotRecorded(nameOf, containers, before, start, m.key);
    }
  }

  lemma NotRecorded<N>(nameOf: Bytes -> Option<N>, containers: Bytes, spans: map<N, Span>, start: nat, key: seq<Item>)
    ensures containers != [OPEN_BRACE] ==> Recorded(nameOf, containers, spans, start, key) == spans
  {
  }

  /** The parts of a member before its value. */
  ghost predicate KeyAt(bytes: Bytes, c: nat, m: Member) {
    var start := c + |m.before|;
    var gap := start + |Literal(m.key)|;
    && At(bytes, c, m.before) && At(bytes, start, Literal(m.key)) && At(bytes, gap, m.gap)
    && At(bytes, gap + |m.gap|, [COLON]) && At(bytes, gap + |m.gap| + 1, m.space)
  }

  lemma MemberParts(bytes: Bytes, c: nat, v: Value, n: nat)
    requires v.Object? && 0 < n <= |v.members| && At(bytes, c, MembersText(v, n))
    ensures var m := v.members[n - 1];
            var head, comma, text := MembersText(v, n - 1), Separator(n - 1), ValueText(m.value);
            var at := c + |head| + |comma| + |m.before| + |Literal(m.key)| + |m.gap| + 1 + |m.space|;
            && c + |MembersText(v, n)| == at + |text| + |m.after|
            && At(bytes, c, head) && At(bytes, c + |head|, comma) && KeyAt(bytes, c + |head| + |comma|, m)
            && At(bytes, at, text) && At(bytes, at + |text|, m.after)
            && (n > 1 ==> Closes(bytes, c + |head|))
  {
    hide At, Literal, ValueText;
    var m := v.members[n - 1];
    var head, comma, text, key := MembersText(v, n - 1), Separator(n - 1), ValueText(m.value), Literal(m.key);
    AtSplit(bytes, c, head + comma + m.before + key + m.gap + [COLON] + m.space + text, m.after);
    AtSplit(bytes, c, head + comma + m.before + key + m.gap + [COLON] + m.space, text);
    AtSplit(bytes, c, head + comma + m.before + key + m.gap + [COLON], m.space);
    AtSplit(bytes, c, head + comma + m.before + key + m.gap, [COLON]);
    KeyParts(bytes, c, head, comma, m);
    if n > 1 {
      AtByte(bytes, c + |head|, comma, 0);
    }
  }

  lemma KeyParts(bytes: Bytes, c: nat, head: Bytes, comma: Bytes, m: Member)
    requires At(bytes, c, head + comma + m.before + Literal(m.key) + m.gap)
    ensures var start := c + |head| + |comma| + |m.before|;
            && At(bytes, c, head) && At(bytes, c + |head|, comma) && At(bytes, c + |head| + |comma|, m.before)
            && At(bytes, start, Literal(m.key)) && At(bytes, start + |Literal(m.key)|, m.gap)
  {
    hide At, Literal;
    var key := Literal(m.key);
    AtSplit(bytes, c, head + comma + m.before + key, m.gap);
    AtSplit(bytes, c, head + comma + m.before, key);
    AtSplit(bytes, c, head + comma, m.before);
    AtSplit(bytes, c, head, comma);
  }

  /** Scanning up to a member's value records its key, if it is a root key. */
  lemma ScanKey<N>(bytes: Bytes, nameOf: Bytes -> Option<N>, c: nat, containers: Bytes, spans: map<N, Span>, m: Member)
    requires WfMember(m) && KeyAt(bytes, c, m)
    ensures var start := c + |m.before|;
            Scan(bytes, nameOf, c, containers, spans)
            == Scan(bytes, nameOf, start + |Literal(m.key)| + |m.gap| + 1 + |m.space|, containers,
                    Recorded(nameOf, containers, spans, start, m.key))
  {
    hide Scan, Literal, At, WfValue;
    var start := c + |m.before|;
    var gap := start + |Literal(m.key)|;
    SpacePassive(m.before);
    SpacePassive(m.gap);
    SpacePassive(m.space);
    ScanPassive(bytes, nameOf, c, containers, spans, m.before);
    ScanLiteral(bytes, nameOf, start, containers, spans, m.key);
    AtByte(bytes, gap + |m.gap|, [COLON], 0);
    ColonAfterSpace(bytes, gap, m.gap);
    var after := Recorded(nameOf, containers, spans, start, m.key);
    assert Record(bytes, nameOf, start, containers, spans) == after;
    ScanPassive(bytes, nameOf, gap, containers, after, m.gap);
    ScanPassive(bytes, nameOf, gap + |m.gap|, containers, after, [COLON]);
    ScanPassive(bytes, nameOf, gap + |m.gap| + 1, containers, after, m.space);
  }

  // Whole documents

  /** A text whose root is an object, with white space around it. */
  datatype Document = Document(before: Bytes, root: Value, after: Bytes)

  predicate WfDocument(d: Document) {
    Space(d.before) && d.root.Object? && WfValue(d.root) && Space(d.after)
  }

  function DocumentText(d: Document): Bytes {
    d.before + ValueText(d.root) + d.after
  }

  /** The first byte of the `i`-th key literal. */
  function KeyPosition(d: Document, i: nat): nat
    requires d.root.Object? && i < |d.root.members|
  {
    KeyStart(d.root, |d.before| + 1, i)
  }

  /** The root object records its keys. */
  lemma ScanRootObject<N>(bytes: Bytes, nameOf: Bytes -> Option<N>, c: nat, v: Value)
    requires WfValue(v) && v.Object? && At(bytes, c, [OPEN_BRACE] + Body(v) + [CLOSE_BRACE])
    ensures Scan(bytes, nameOf, c, [], map[])
            == Scan(bytes, nameOf, c + 1 + |Body(v)| + 1, [],
                    KeySpans(nameOf, [OPEN_BRACE], map[], v, c + 1, |v.members|))
  {
    hide Scan, At, MembersText, Closes, Space, WfMember;
    BracketedParts(bytes, c, OPEN_BRACE, Body(v), CLOSE_BRACE);
    ScanOpen(bytes, nameOf, c, [], map[], OPEN_BRACE, CLOSE_BRACE);
    var spans := KeySpans(nameOf, [OPEN_BRACE], map[], v, c + 1, |v.members|);
    assert [] + [OPEN_BRACE] == [OPEN_BRACE];
    if v.members == [] {
      SpacePassive(v.inner);
      ScanPassive(bytes, nameOf, c + 1, [OPEN_BRACE], map[], v.inner);
    } else {
      ScanMembers(bytes, nameOf, c + 1, [OPEN_BRACE], map[], v, |v.members|);
    }
    ScanClose(bytes, nameOf, c + 1 + |Body(v)|, [], spans, OPEN_BRACE, CLOSE_BRACE);
  }

  lemma ScanRoot<N>(d: Document, nameOf: Bytes -> Option<N>)
    requires WfDocument(d)
    ensures Scan(DocumentText(d), nameOf, 0, [], map[])
            == KeySpans(nameOf, [OPEN_BRACE], map[], d.root, |d.before| + 1, |d.root.members|)
  {
    hide Scan, At, Body, Space, WfValue, KeySpans, DocumentText, ValueText;
    var bytes := DocumentText(d);
    var c := |d.before|;
    var spans := KeySpans(nameOf, [OPEN_BRACE], map[], d.root, c + 1, |d.root.members|);
    DocumentParts(d);
    SpacePassive(d.before);
    SpacePassive(d.after);
    ScanPassive(bytes, nameOf, 0, [], map[], d.before);
    ScanRootObject(bytes, nameOf, c, d.root);
    ScanPassive(bytes, nameOf, c + |ValueText(d.root)|, [], spans, d.after);
    ScanEnds(bytes, nameOf, [], spans);
  }

  lemma DocumentParts(d: Document)
    requires d.root.Object?
    ensures var bytes := DocumentText(d);
            && At(bytes, 0, d.before) && At(bytes, |d.before|, [OPEN_BRACE] + Body(d.root) + [CLOSE_BRACE])
            && At(bytes, |d.before| + |ValueText(d.root)|, d.after)
            && |bytes| == |d.before| + |ValueText(d.root)| + |d.after|
            && |ValueText(d.root)| == |Body(d.root)| + 2
  {
    hide MembersText;
    var bytes, text := DocumentText(d), ValueText(d.root);
    assert bytes[0..|bytes|] == d.before + text + d.after;
    AtSplit(bytes, 0, d.before + text, d.after);
    AtSplit(bytes, 0, d.before, text);
  }

  // The recorded names

  /** Among the first `n` members, the `i`-th is the last whose key has the name. */
  ghost predicate LastNamed<N>(nameOf: Bytes -> Option<N>, v: Value, n: nat, i: nat, name: N)
    requires v.Object? && n <= |v.members|
  {
    && i < n && nameOf(Literal(v.members[i].key)) == Some(name)
    && forall j :: i < j < n ==> nameOf(Literal(v.members[j].key)) != Some(name)
  }

  lemma {:induction false} KeySpansOf<N(!new)>(nameOf: Bytes -> Option<N>, v: Value, c: nat, n: nat, name: N)
    requires v.Object? && n <= |v.members|
    ensures var spans := KeySpans(nameOf, [OPEN_BRACE], map[], v, c, n);
            && (name in spans ==> exists i: nat :: LastNamed(nameOf, v, n, i, name))
            && (forall i: nat :: i < n && LastNamed(nameOf, v, n, i, name) ==>
                  name in spans && spans[name] == (KeyStart(v, c, i), |Literal(v.members[i].key)|))
    decreases n
  {
    hide KeyStart, Literal;
    if n > 0 {
      KeySpansOf(nameOf, v, c, n - 1, name);
      if nameOf(Literal(v.members[n - 1].key)) == Some(name) {
        assert LastNamed(nameOf, v, n, n - 1, name);
      } else if name in KeySpans(nameOf, [OPEN_BRACE], map[], v, c, n - 1) {
        var i: nat :| LastNamed(nameOf, v, n - 1, i, name);
        assert LastNamed(nameOf, v, n, i, name);
      }
      forall i: nat | i < n - 1 && LastNamed(nameOf, v, n, i, name)
        ensures LastNamed(nameOf, v, n - 1, i, name)
      {
      }
    }
  }

  /** The scanner records exactly the root members whose decoded key is a valid
      name, each with the span of its quoted key literal, however strings,
      escapes and containers nest in the values. When several keys have the same
      name, the last one counts. */
  lemma ScannerAgrees<N(!new)>(d: Document, nameOf: Bytes -> Option<N>)
    requires WfDocument(d)
    ensures var spans := Scan(DocumentText(d), nameOf, 0, [], map[]);
            && (forall name :: name in spans ==>
                  exists i: nat :: LastNamed(nameOf, d.root, |d.root.members|, i, name))
            && (forall i: nat, name :: i < |d.root.members| && LastNamed(nameOf, d.root, |d.root.members|, i, name) ==>
                  name in spans && spans[name] == (KeyPosition(d, i), |Literal(d.root.members[i].key)|))
  {
    hide Scan, KeyStart, Literal, KeySpans, LastNamed, WfValue, DocumentText;
    ScanRoot(d, nameOf);
    forall name
      ensures var spans := Scan(DocumentText(d), nameOf, 0, [], map[]);
              && (name in spans ==> exists i: nat :: LastNamed(nameOf, d.root, |d.root.members|, i, name))
              && (forall i: nat :: i < |d.root.members| && LastNamed(nameOf, d.root, |d.root.members|, i, name) ==>
                    name in spans && spans[name] == (KeyPosition(d, i), |Literal(d.root.members[i].key)|))
    {
      KeySpansOf(nameOf, d.root, |d.before| + 1, |d.root.members|, name);
    }
  }

  /** The recorded span is where the text spells the key. */
  lemma KeySpelled(d: Document, i: nat)
    requires d.root.Object? && i < |d.root.members|
    ensures At(DocumentText(d), KeyPosition(d, i), Literal(d.root.members[i].key))
  {
    hide At, Literal, MembersText;
    DocumentParts(d);
    BracketedParts(DocumentText(d), |d.before|, OPEN_BRACE, Body(d.root), CLOSE_BRACE);
    KeySpelledIn(DocumentText(d), |d.before| + 1, d.root, |d.root.members|, i);
  }

  lemma {:induction false} KeySpelledIn(bytes: Bytes, c: nat, v: Value, n: nat, i: nat)
    requires v.Object? && i < n <= |v.members| && At(bytes, c, MembersText(v, n))
    ensures At(bytes, KeyStart(v, c, i), Literal(v.members[i].key))
    decreases n
  {
    hide At, Literal, MembersText;
    MemberParts(bytes, c, v, n);
    if i < n - 1 {
      KeySpelledIn(bytes, c, v, n - 1, i);
    }
  }
}
