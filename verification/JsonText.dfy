/** JSON texts as RFC 8259 derives them, with every choice of white space and
    escape spelling, and the parser's agreement with the value each denotes. */
module JsonText {
  import opened Jcs
  import opened Wrappers

  // --- Texts ----------------------------------------------------------------------------

  /** One character of a string literal. */
  datatype Spelling = Plain(u: Unit) | Short(letter: Unit) | Hex(digits: Str)

  datatype Json =
    | Null
    | Bool(b: bool)
    | Num(raw: Str)
    | Text(chars: seq<Spelling>)
    | List(gap: Str, items: seq<Item>)
    | Dict(gap: Str, members: seq<Member>)

  datatype Item = Item(before: Str, v: Json, after: Str)

  datatype Member = Member(before: Str, key: seq<Spelling>, beforeColon: Str, item: Item)

  predicate AllWs(w: Str) {
    forall i :: 0 <= i < |w| ==> IsWs(w[i])
  }

  predicate GoodSpelling(c: Spelling) {
    match c
    case Plain(u) => u != QUOTE && u != BACKSLASH
    case Short(e) => ShortEscape(e).Some?
    case Hex(d) => |d| == 4 && forall i :: 0 <= i < 4 ==> HexDigit(d[i]).Some?
  }

  predicate GoodChars(cs: seq<Spelling>) {
    forall i :: 0 <= i < |cs| ==> GoodSpelling(cs[i])
  }

  predicate GoodNumber(raw: Str) {
    && raw != [] && (raw[0] == MINUS || IsDigitUnit(raw[0]))
    && forall i :: 0 <= i < |raw| ==> IsNumberUnit(raw[i])
  }

  predicate Good(j: Json)
    decreases j
  {
    match j
    case Null => true
    case Bool(_) => true
    case Num(raw) => GoodNumber(raw)
    case Text(cs) => GoodChars(cs)
    case List(gap, items) => AllWs(gap) && forall i :: 0 <= i < |items| ==> GoodItem(items[i])
    case Dict(gap, ms) => AllWs(gap) && forall i :: 0 <= i < |ms| ==> GoodMember(ms[i])
  }

  predicate GoodItem(item: Item)
    decreases item
  {
    AllWs(item.before) && Good(item.v) && AllWs(item.after)
  }

  /** A member the parser stores under its key: not one named __proto__. */
  predicate GoodMember(m: Member)
    decreases m
  {
    AllWs(m.before) && GoodChars(m.key) && CharsValue(m.key) != PROTO && AllWs(m.beforeColon) && GoodItem(m.item)
  }

  function SpellingText(c: Spelling): Str {
    match c
    case Plain(u) => [u]
    case Short(e) => [BACKSLASH, e]
    case Hex(d) => [BACKSLASH, LETTER_U] + d
  }

  function CharsText(cs: seq<Spelling>): Str {
    if cs == [] then [] else SpellingText(cs[0]) + CharsText(cs[1..])
  }

  function Quoted(cs: seq<Spelling>): Str {
    [QUOTE] + CharsText(cs) + [QUOTE]
  }

  function Render(j: Json): Str
    decreases j, 0
  {
    match j
    case Null => NULL
    case Bool(b) => if b then TRUE else FALSE
    case Num(raw) => raw
    case Text(cs) => Quoted(cs)
    case List(gap, items) => [OPEN_BRACKET] + (if items == [] then gap else ItemsText(items)) + [CLOSE_BRACKET]
    case Dict(gap, ms) => [OPEN_BRACE] + (if ms == [] then gap else MembersText(ms)) + [CLOSE_BRACE]
  }

  function ItemText(item: Item): Str
    decreases item, 0
  {
    item.before + Render(item.v) + item.after
  }

  function ItemsText(items: seq<Item>): Str
    decreases items, 1
  {
    if items == [] then []
    else ItemText(items[0]) + if items[1..] == [] then [] else [COMMA] + ItemsText(items[1..])
  }

  function MemberText(m: Member): Str
    decreases m, 0
  {
    m.before + Quoted(m.key) + m.beforeColon + [COLON] + ItemText(m.item)
  }

  function MembersText(ms: seq<Member>): Str
    decreases ms, 1
  {
    if ms == [] then []
    else MemberText(ms[0]) + if ms[1..] == [] then [] else [COMMA] + MembersText(ms[1..])
  }

  // --- What they denote --------------------------------------------------------------------

  function SpellingValue(c: Spelling): Unit
    requires GoodSpelling(c)
  {
    match c
    case Plain(u) => u
    case Short(e) => ShortEscape(e).value
    case Hex(d) =>
      HexDigit(d[0]).value * 0x1000 + HexDigit(d[1]).value * 0x100 + HexDigit(d[2]).value * 0x10 + HexDigit(d[3]).value
  }

  function CharsValue(cs: seq<Spelling>): Str
    requires GoodChars(cs)
  {
    seq(|cs|, i requires 0 <= i < |cs| => SpellingValue(cs[i]))
  }

  function Denote(j: Json): JVal
    requires Good(j)
    decreases j, 0
  {
    match j
    case Null => JNull
    case Bool(b) => JBool(b)
    case Num(raw) => JNum(raw)
    case Text(cs) => JStr(CharsValue(cs))
    case List(_, items) => JArr(seq(|items|, i requires 0 <= i < |items| => DenoteItem(items[i])))
    case Dict(_, ms) => JObj(MembersValue(ms, map[]))
  }

  function DenoteItem(item: Item): JVal
    requires GoodItem(item)
    decreases item, 0
  {
    Denote(item.v)
  }

  /** Later members replace earlier ones of the same key. */
  function MembersValue(ms: seq<Member>, out: map<Str, JVal>): map<Str, JVal>
    requires forall i :: 0 <= i < |ms| ==> GoodMember(ms[i])
    decreases ms, 1
  {
    if ms == [] then out
    else
      assert GoodMember(ms[0]);
      MembersValue(ms[1..], out[CharsValue(ms[0].key) := DenoteItem(ms[0].item)])
  }

  // --- Small pieces of text are read back ------------------------------------------------------

  lemma {:induction false} WsBack(w: Str, t: Str)
    requires AllWs(w) && (t == [] || !IsWs(t[0]))
    ensures Ws(w + t) == t
  {
    if w == [] {
      assert w + t == t;
    } else {
      WsBack(w[1..], t);
      assert (w + t)[1..] == w[1..] + t;
    }
  }

  lemma HexStep(d: Str, read: nat)
    requires d != [] && HexDigit(d[0]).Some?
    ensures HexPrefix(d, read) == HexPrefix(d[1..], 16 * read + HexDigit(d[0]).value)
  {}

  lemma FourDigits(d: Str)
    requires GoodSpelling(Hex(d))
    ensures HexPrefix(d, 0) == SpellingValue(Hex(d))
  {
    var a, b, c := HexDigit(d[0]).value, HexDigit(d[1]).value, HexDigit(d[2]).value;
    assert d[1..][1..] == d[2..] && d[2..][1..] == d[3..] && d[3..][1..] == [];
    HexStep(d, 0);
    HexStep(d[1..], a);
    HexStep(d[2..], 16 * a + b);
    HexStep(d[3..], 256 * a + 16 * b + c);
  }

  /** parseInt meets no sign, space or prefix in four hex digits. */
  lemma CodeUnitBack(d: Str)
    requires GoodSpelling(Hex(d))
    ensures CodeUnit(d) == SpellingValue(Hex(d))
  {
    assert !IsJsSpace(d[0]) && d[0] != MINUS && d[0] != PLUS && d[1] != 0x78 && d[1] != 0x58;
    assert TrimJs(d) == d;
    FourDigits(d);
  }

  lemma SpellingBack(c: Spelling, rest: Str, out: Str)
    requires GoodSpelling(c)
    ensures Chars(SpellingText(c) + rest, out) == Chars(rest, out + [SpellingValue(c)])
  {
    var t := SpellingText(c) + rest;
    match c
    case Plain(u) =>
      assert t[1..] == rest;
    case Short(e) =>
      assert t[1..] == [e] + rest && t[1..][1..] == rest;
    case Hex(d) =>
      assert t[1..] == [LETTER_U] + d + rest && t[1..][1..5] == d && t[1..][5..] == rest;
      CodeUnitBack(d);
  }

  lemma {:induction false} CharsBack(cs: seq<Spelling>, out: Str, tail: Str)
    requires GoodChars(cs)
    ensures Chars(CharsText(cs) + [QUOTE] + tail, out) == Success((out + CharsValue(cs), tail))
  {
    if cs == [] {
      assert CharsText(cs) + [QUOTE] + tail == [QUOTE] + tail;
      assert ([QUOTE] + tail)[1..] == tail && out + CharsValue(cs) == out;
    } else {
      var rest := CharsText(cs[1..]) + [QUOTE] + tail;
      assert CharsText(cs) + [QUOTE] + tail == SpellingText(cs[0]) + rest;
      SpellingBack(cs[0], rest, out);
      CharsBack(cs[1..], out + [SpellingValue(cs[0])], tail);
      assert out + [SpellingValue(cs[0])] + CharsValue(cs[1..]) == out + CharsValue(cs);
    }
  }

  lemma QuotedBack(cs: seq<Spelling>, tail: Str)
    requires GoodChars(cs)
    ensures String(Quoted(cs) + tail) == Success((CharsValue(cs), tail))
  {
    assert (Quoted(cs) + tail)[1..] == CharsText(cs) + [QUOTE] + tail;
    CharsBack(cs, [], tail);
    assert [] + CharsValue(cs) == CharsValue(cs);
  }

  predicate EndsNumber(tail: Str) {
    tail == [] || !IsNumberUnit(tail[0])
  }

  lemma NumberBack(raw: Str, tail: Str)
    requires GoodNumber(raw) && EndsNumber(tail)
    ensures Value(raw + tail) == Success((JNum(raw), tail))
  {
    var t := raw + tail;
    assert forall i :: 0 <= i < |raw| ==> t[i] == raw[i];
    RunIs(t, |raw|);
    assert t[..|raw|] == raw && t[|raw|..] == tail;
  }

  lemma WordBack(word: Str, v: JVal, tail: Str)
    requires word != []
    ensures Word(word + tail, word, v) == Success((v, tail))
  {
    assert (word + tail)[|word|..] == tail;
  }

  lemma ScalarBack(j: Json, tail: Str)
    requires Good(j) && EndsNumber(tail) && !j.List? && !j.Dict?
    ensures Value(Render(j) + tail) == Success((Denote(j), tail))
  {
    match j
    case Null => WordBack(NULL, JNull, tail);
    case Bool(b) => WordBack(if b then TRUE else FALSE, JBool(b), tail);
    case Num(raw) => NumberBack(raw, tail);
    case Text(cs) => QuotedBack(cs, tail);
  }

  // --- Every text is read as what it denotes ---------------------------------------------------

  /** A value's text starts with neither white space nor a closing bracket. */
  lemma RenderHead(j: Json)
    requires Good(j)
    ensures Render(j) != [] && !IsWs(Render(j)[0])
    ensures Render(j)[0] != CLOSE_BRACKET && Render(j)[0] != CLOSE_BRACE
  {}

  /** What may come after an item: a comma or a closing bracket. */
  predicate Stops(tail: Str) {
    tail != [] && !IsWs(tail[0]) && !IsNumberUnit(tail[0])
  }

  lemma {:induction false} ValueBack(j: Json, tail: Str)
    requires Good(j) && EndsNumber(tail)
    ensures Value(Render(j) + tail) == Success((Denote(j), tail))
    decreases j, 0
  {
    match j
    case List(gap, items) =>
      if items == [] {
        EmptyListBack(gap, tail);
        assert Denote(j).items == [];
      } else {
        ItemsBack(items, [], tail);
        ListFrom(gap, items, tail);
        assert [] + Denote(List([], items)).items == Denote(j).items;
      }
    case Dict(gap, ms) =>
      if ms == [] {
        EmptyDictBack(gap, tail);
      } else {
        MembersBack(ms, map[], tail);
        DictFrom(gap, ms, tail);
      }
    case _ => ScalarBack(j, tail);
  }

  lemma EmptyListBack(gap: Str, tail: Str)
    requires AllWs(gap)
    ensures Value(Render(List(gap, [])) + tail) == Success((JArr([]), tail))
  {
    var t := Render(List(gap, [])) + tail;
    assert t[1..] == gap + ([CLOSE_BRACKET] + tail);
    WsBack(gap, [CLOSE_BRACKET] + tail);
  }

  lemma EmptyDictBack(gap: Str, tail: Str)
    requires AllWs(gap)
    ensures Value(Render(Dict(gap, [])) + tail) == Success((JObj(map[]), tail))
  {
    var t := Render(Dict(gap, [])) + tail;
    assert t[1..] == gap + ([CLOSE_BRACE] + tail);
    WsBack(gap, [CLOSE_BRACE] + tail);
  }

  /** White space before the first item changes nothing. */
  lemma ItemsSkipWs(t: Str, out: seq<JVal>)
    ensures Items(Ws(t), out) == Items(t, out)
  {
    WsBack([], Ws(t));
    assert [] + Ws(t) == Ws(t);
  }

  lemma MembersSkipWs(t: Str, out: map<Str, JVal>)
    ensures Members(Ws(t), out) == Members(t, out)
  {
    WsBack([], Ws(t));
    assert [] + Ws(t) == Ws(t);
  }

  function ItemsEnd(items: seq<Item>, tail: Str): Str {
    ItemsText(items) + ([CLOSE_BRACKET] + tail)
  }

  function MembersEnd(ms: seq<Member>, tail: Str): Str {
    MembersText(ms) + ([CLOSE_BRACE] + tail)
  }

  /** What comes after the first item: the bracket, or a comma and the other items. */
  function AfterItem(rest: seq<Item>, tail: Str): Str {
    if rest == [] then [CLOSE_BRACKET] + tail else [COMMA] + ItemsEnd(rest, tail)
  }

  function AfterMember(rest: seq<Member>, tail: Str): Str {
    if rest == [] then [CLOSE_BRACE] + tail else [COMMA] + MembersEnd(rest, tail)
  }

  lemma ItemsEndSplits(items: seq<Item>, tail: Str)
    requires items != []
    ensures ItemsEnd(items, tail) == ItemText(items[0]) + AfterItem(items[1..], tail)
  {
    var rest, end := items[1..], [CLOSE_BRACKET] + tail;
    Regroup(ItemText(items[0]), if rest == [] then [] else [COMMA] + ItemsText(rest), end);
    Regroup([COMMA], ItemsText(rest), end);
  }

  lemma Regroup(a: Str, b: Str, c: Str)
    ensures a + b + c == a + (b + c) && a + [] + c == a + c && [] + c == c
  {}

  lemma MembersEndSplits(ms: seq<Member>, tail: Str)
    requires ms != []
    ensures MembersEnd(ms, tail) == MemberText(ms[0]) + AfterMember(ms[1..], tail)
  {
    var rest, end := ms[1..], [CLOSE_BRACE] + tail;
    Regroup(MemberText(ms[0]), if rest == [] then [] else [COMMA] + MembersText(rest), end);
    Regroup([COMMA], MembersText(rest), end);
  }

  lemma ValueIsArray(t: Str)
    ensures Value([OPEN_BRACKET] + t) == Array(t)
  {
    assert ([OPEN_BRACKET] + t)[1..] == t;
  }

  lemma ValueIsObject(t: Str)
    ensures Value([OPEN_BRACE] + t) == Object(t)
  {
    assert ([OPEN_BRACE] + t)[1..] == t;
  }

  lemma ArrayIsItems(before: Str, more: Str)
    requires AllWs(before) && more != [] && !IsWs(more[0]) && more[0] != CLOSE_BRACKET
    ensures Array(before + more) == Items(before + more, [])
  {
    WsBack(before, more);
    ItemsSkipWs(before + more, []);
  }

  lemma ObjectIsMembers(before: Str, more: Str)
    requires AllWs(before) && more != [] && !IsWs(more[0]) && more[0] != CLOSE_BRACE
    ensures Object(before + more) == Members(before + more, map[])
  {
    WsBack(before, more);
    MembersSkipWs(before + more, map[]);
  }

  lemma RenderedList(gap: Str, items: seq<Item>, tail: Str)
    requires items != []
    ensures Render(List(gap, items)) + tail == [OPEN_BRACKET] + ItemsEnd(items, tail)
  {
    Regroup([OPEN_BRACKET], ItemsText(items), [CLOSE_BRACKET]);
  }

  lemma RenderedDict(gap: Str, ms: seq<Member>, tail: Str)
    requires ms != []
    ensures Render(Dict(gap, ms)) + tail == [OPEN_BRACE] + MembersEnd(ms, tail)
  {
    Regroup([OPEN_BRACE], MembersText(ms), [CLOSE_BRACE]);
  }

  lemma FirstItem(items: seq<Item>, tail: Str) returns (more: Str)
    requires items != [] && GoodItem(items[0])
    ensures ItemsEnd(items, tail) == items[0].before + more
    ensures more != [] && !IsWs(more[0]) && more[0] != CLOSE_BRACKET
  {
    var item, next := items[0], AfterItem(items[1..], tail);
    more := Render(item.v) + (item.after + next);
    RenderHead(item.v);
    ItemsEndSplits(items, tail);
    assert ItemText(item) + next == item.before + more;
  }

  lemma FirstMember(ms: seq<Member>, tail: Str) returns (more: Str)
    requires ms != []
    ensures MembersEnd(ms, tail) == ms[0].before + more
    ensures more != [] && more[0] == QUOTE
  {
    var m, next := ms[0], AfterMember(ms[1..], tail);
    more := Quoted(m.key) + (m.beforeColon + [COLON] + ItemText(m.item) + next);
    MembersEndSplits(ms, tail);
    assert MemberText(m) + next == m.before + more;
  }

  lemma ListFrom(gap: Str, items: seq<Item>, tail: Str)
    requires items != [] && GoodItem(items[0])
    ensures Value(Render(List(gap, items)) + tail) == Items(ItemsEnd(items, tail), [])
  {
    RenderedList(gap, items, tail);
    ValueIsArray(ItemsEnd(items, tail));
    var more := FirstItem(items, tail);
    ArrayIsItems(items[0].before, more);
  }

  lemma DictFrom(gap: Str, ms: seq<Member>, tail: Str)
    requires ms != [] && GoodMember(ms[0])
    ensures Value(Render(Dict(gap, ms)) + tail) == Members(MembersEnd(ms, tail), map[])
  {
    RenderedDict(gap, ms, tail);
    ValueIsObject(MembersEnd(ms, tail));
    var more := FirstMember(ms, tail);
    ObjectIsMembers(ms[0].before, more);
  }

  lemma ItemBack(item: Item, tail: Str)
    requires GoodItem(item) && Stops(tail)
    ensures var t := Ws(ItemText(item) + tail);
            Value(t).Success? && Value(t).value.0 == Denote(item.v) && Ws(Value(t).value.1) == tail
    decreases item, 1
  {
    var rest := item.after + tail;
    RenderHead(item.v);
    assert ItemText(item) + tail == item.before + (Render(item.v) + rest);
    WsBack(item.before, Render(item.v) + rest);
    assert EndsNumber(rest) by {
      assert item.after != [] ==> IsWs(item.after[0]) && rest[0] == item.after[0];
    }
    ValueBack(item.v, rest);
    WsBack(item.after, tail);
  }

  lemma ItemsStep(t: Str, out: seq<JVal>, v: JVal, next: Str)
    requires var r := Value(Ws(t)); r.Success? && r.value.0 == v && Ws(r.value.1) == next
    requires next != [] && (next[0] == CLOSE_BRACKET || next[0] == COMMA)
    ensures Items(t, out)
            == if next[0] == CLOSE_BRACKET then Success((JArr(out + [v]), next[1..])) else Items(next[1..], out + [v])
  {}

  function DenoteItems(items: seq<Item>): seq<JVal>
    requires forall i :: 0 <= i < |items| ==> GoodItem(items[i])
  {
    seq(|items|, i requires 0 <= i < |items| => DenoteItem(items[i]))
  }

  lemma DenoteSplits(items: seq<Item>, out: seq<JVal>)
    requires items != [] && forall i :: 0 <= i < |items| ==> GoodItem(items[i])
    ensures out + DenoteItems(items) == out + [DenoteItem(items[0])] + DenoteItems(items[1..])
  {}

  /** Reading the first item leaves the others, or what follows the list. */
  lemma FirstItemBack(items: seq<Item>, out: seq<JVal>, tail: Str)
    requires items != [] && GoodItem(items[0])
    ensures var read := out + [DenoteItem(items[0])];
            Items(ItemsEnd(items, tail), out)
            == if items[1..] == [] then Success((JArr(read), tail)) else Items(ItemsEnd(items[1..], tail), read)
    decreases items, 2
  {
    var item, rest := items[0], items[1..];
    var next := AfterItem(rest, tail);
    ItemsEndSplits(items, tail);
    ItemBack(item, next);
    ItemsStep(ItemsEnd(items, tail), out, DenoteItem(item), next);
    assert next[1..] == if rest == [] then tail else ItemsEnd(rest, tail);
  }

  lemma {:induction false} ItemsBack(items: seq<Item>, out: seq<JVal>, tail: Str)
    requires items != [] && forall i :: 0 <= i < |items| ==> GoodItem(items[i])
    ensures Items(ItemsEnd(items, tail), out) == Success((JArr(out + DenoteItems(items)), tail))
    decreases items, 3
  {
    FirstItemBack(items, out, tail);
    DenoteSplits(items, out);
    if items[1..] != [] {
      ItemsBack(items[1..], out + [DenoteItem(items[0])], tail);
    } else {
      assert out + DenoteItems(items) == out + [DenoteItem(items[0])];
    }
  }

  lemma KeyBack(m: Member, tail: Str)
    requires GoodMember(m)
    ensures KeyColon(m.before + Quoted(m.key) + m.beforeColon + [COLON] + tail) == Success((CharsValue(m.key), tail))
  {
    var rest := m.beforeColon + ([COLON] + tail);
    assert m.before + Quoted(m.key) + m.beforeColon + [COLON] + tail == m.before + (Quoted(m.key) + rest);
    WsBack(m.before, Quoted(m.key) + rest);
    QuotedBack(m.key, rest);
    WsBack(m.beforeColon, [COLON] + tail);
    assert ([COLON] + tail)[1..] == tail;
  }

  /** One member is read, up to what comes after it. */
  lemma MemberBack(m: Member, next: Str)
    requires GoodMember(m) && Stops(next)
    ensures var k := KeyColon(MemberText(m) + next);
            && k.Success? && k.value.0 == CharsValue(m.key)
            && var r := Value(Ws(k.value.1));
               r.Success? && r.value.0 == DenoteItem(m.item) && Ws(r.value.1) == next
    decreases m, 1
  {
    var afterColon := ItemText(m.item) + next;
    assert MemberText(m) + next == m.before + Quoted(m.key) + m.beforeColon + [COLON] + afterColon;
    KeyBack(m, afterColon);
    ItemBack(m.item, next);
  }

  lemma {:induction false} MembersBack(ms: seq<Member>, out: map<Str, JVal>, tail: Str)
    requires ms != [] && forall i :: 0 <= i < |ms| ==> GoodMember(ms[i])
    ensures Members(MembersEnd(ms, tail), out) == Success((JObj(MembersValue(ms, out)), tail))
    decreases ms, 2
  {
    var m, rest := ms[0], ms[1..];
    var next := AfterMember(rest, tail);
    MembersEndSplits(ms, tail);
    MemberBack(m, next);
    var out' := out[CharsValue(m.key) := DenoteItem(m.item)];
    if rest == [] {
      assert next[1..] == tail;
      assert MembersValue(rest, out') == out';
    } else {
      assert next[1..] == MembersEnd(rest, tail);
      MembersBack(rest, out', tail);
    }
  }

  /** The parser reads every JSON text, however it is spaced and spelled, as the
      value it denotes. */
  lemma ParseText(before: Str, j: Json, after: Str)
    requires AllWs(before) && Good(j) && AllWs(after)
    ensures Parse(before + Render(j) + after) == Success(Denote(j))
  {
    RenderHead(j);
    assert before + Render(j) + after == before + (Render(j) + after);
    WsBack(before, Render(j) + after);
    ValueBack(j, after);
    WsBack(after, []);
    assert after + [] == after;
  }
}
