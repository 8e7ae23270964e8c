/** The serializer of sdk/typescript/src/jcs.ts, and what canonicalizing a text
    keeps: sections 3.2.2.2, 3.2.2.3 and 3.2.3 of RFC 8785 over texts whose
    numbers are integers. */
module JcsSerializer {
  import opened Decimals
  import opened Jcs
  import opened JsonText
  import opened Wrappers
  import Radix

  // --- Strings --------------------------------------------------------------------------

  function HexChar(d: nat): Unit
    requires d < 16
  {
    if d < 10 then 0x30 + d else 0x61 + (d - 10)
  }

  /** The one-letter escape RFC 8785 requires for u, if any. */
  function ShortFor(u: Unit): Option<Unit> {
    if u == QUOTE || u == BACKSLASH then Some(u)
    else if u == 0x08 then Some(0x62)
    else if u == 0x0C then Some(0x66)
    else if u == LF then Some(0x6E)
    else if u == CR then Some(0x72)
    else if u == TAB then Some(0x74)
    else None
  }

  function EscapeUnit(u: Unit): Str {
    if ShortFor(u).Some? then [BACKSLASH, ShortFor(u).value]
    else if u < 0x20 then [BACKSLASH, LETTER_U, ZERO, ZERO, HexChar(u / 16), HexChar(u % 16)]
    else [u]
  }

  function Escaped(s: Str): Str {
    if s == [] then [] else EscapeUnit(s[0]) + Escaped(s[1..])
  }

  /** code.toString(16) */
  function ToString16(code: nat): Str {
    if code == 0 then [ZERO]
    else
      var ds := Radix.Numeral(code, 16);
      seq(|ds|, i requires 0 <= i < |ds| => if ds[i] < 16 then HexChar(ds[i]) else ZERO)
  }

  /** padStart(4, "0") */
  function PadStart4(t: Str): Str {
    seq(if |t| < 4 then 4 - |t| else 0, _ => ZERO) + t
  }

  lemma ControlHex(u: Unit)
    requires u < 0x20
    ensures PadStart4(ToString16(u)) == [ZERO, ZERO, HexChar(u / 16), HexChar(u % 16)]
  {
    assert Radix.Numeral(0, 16) == [];
    assert u / 16 == 0 || u / 16 == 1;
    if u >= 16 {
      assert Radix.Numeral(1, 16) == [1];
      assert Radix.Numeral(u, 16) == [1, u % 16];
    } else if u > 0 {
      assert Radix.Numeral(u, 16) == [u];
    }
  }

  predicate HighSurrogate(u: Unit) {
    0xD800 <= u < 0xDC00
  }

  predicate LowSurrogate(u: Unit) {
    0xDC00 <= u < 0xE000
  }

  function CodePoint(ch: Str): nat
    requires |ch| == 1 || (|ch| == 2 && HighSurrogate(ch[0]) && LowSurrogate(ch[1]))
  {
    if |ch| == 1 then ch[0]
    else
      var high: int, low: int := ch[0], ch[1];
      0x10000 + (high - 0xD800) * 0x400 + (low - 0xDC00)
  }

  /** What the loop adds for one code point. */
  method EscapeCodePoint(ch: Str) returns (text: Str)
    requires |ch| == 1 || (|ch| == 2 && HighSurrogate(ch[0]) && LowSurrogate(ch[1]))
    ensures text == if |ch| == 1 then EscapeUnit(ch[0]) else EscapeUnit(ch[0]) + EscapeUnit(ch[1])
  {
    var code := CodePoint(ch);
    if ch == [QUOTE] {
      text := [BACKSLASH, QUOTE];
    } else if ch == [BACKSLASH] {
      text := [BACKSLASH, BACKSLASH];
    } else if ch == [0x08] {
      text := [BACKSLASH, 0x62];
    } else if ch == [0x0C] {
      text := [BACKSLASH, 0x66];
    } else if ch == [LF] {
      text := [BACKSLASH, 0x6E];
    } else if ch == [CR] {
      text := [BACKSLASH, 0x72];
    } else if ch == [TAB] {
      text := [BACKSLASH, 0x74];
    } else if code < 0x20 {
      ControlHex(ch[0]);
      text := [BACKSLASH, LETTER_U] + PadStart4(ToString16(code));
    } else {
      text := ch;
      assert |ch| == 1 ==> ch == [ch[0]] && ShortFor(ch[0]).None?;
    }
  }

  /** escapeString: a loop over code points, so a surrogate pair is one step. */
  method EscapeString(s: Str) returns (out: Str)
    ensures out == [QUOTE] + Escaped(s) + [QUOTE]
  {
    out := [QUOTE];
    var k: nat := 0;
    while k < |s|
      invariant k <= |s| && [QUOTE] + Escaped(s) == out + Escaped(s[k..])
    {
      var width: nat := if HighSurrogate(s[k]) && k + 1 < |s| && LowSurrogate(s[k + 1]) then 2 else 1;
      var text := EscapeCodePoint(s[k..k + width]);
      EscapedOn(out, s[k..], width, text);
      assert s[k..][width..] == s[k + width..];
      out := out + text;
      k := k + width;
    }
    out := out + [QUOTE];
  }

  lemma EscapedHead(t: Str)
    requires t != []
    ensures Escaped(t) == EscapeUnit(t[0]) + Escaped(t[1..])
  {}

  lemma EscapedStep(t: Str, width: nat, text: Str)
    requires 1 <= width <= 2 && width <= |t|
    requires text == if width == 1 then EscapeUnit(t[0]) else EscapeUnit(t[0]) + EscapeUnit(t[1])
    ensures Escaped(t) == text + Escaped(t[width..])
  {
    EscapedHead(t);
    if width == 2 {
      var rest := t[1..];
      EscapedHead(rest);
      assert rest[0] == t[1] && rest[1..] == t[2..];
      Regroup(EscapeUnit(t[0]), EscapeUnit(t[1]), Escaped(t[2..]));
    }
  }

  lemma EscapedOn(out: Str, t: Str, width: nat, text: Str)
    requires 1 <= width <= 2 && width <= |t|
    requires text == if width == 1 then EscapeUnit(t[0]) else EscapeUnit(t[0]) + EscapeUnit(t[1])
    ensures out + Escaped(t) == out + text + Escaped(t[width..])
  {
    EscapedStep(t, width, text);
  }

  // --- Numbers --------------------------------------------------------------------------

  predicate Negative(raw: Str) {
    raw != [] && raw[0] == MINUS
  }

  function Magnitude(raw: Str): Str {
    if Negative(raw) then raw[1..] else raw
  }

  predicate DigitUnits(t: Str) {
    t != [] && forall i :: 0 <= i < |t| ==> IsDigitUnit(t[i])
  }

  /** /^-?\d+$/ */
  predicate IntegerLiteral(raw: Str) {
    DigitUnits(Magnitude(raw))
  }

  function DigitValue(u: Unit): nat {
    if IsDigitUnit(u) then u - ZERO else 0
  }

  function DigitValues(t: Str): seq<nat> {
    seq(|t|, i requires 0 <= i < |t| => DigitValue(t[i]))
  }

  function Natural(t: Str): nat {
    Radix.Value(DigitValues(t), 10)
  }

  function Absolute(raw: Str): nat
    requires IntegerLiteral(raw)
  {
    Natural(Magnitude(raw))
  }

  function Units(s: string): Str
    requires AllDigits(s)
  {
    seq(|s|, i requires 0 <= i < |s| => s[i] as int)
  }

  function DecimalUnits(n: nat): Str {
    DecimalDigits(n);
    Units(Decimal(n))
  }

  /** Zero has no sign. */
  function SignedUnits(negative: bool, n: nat): Str {
    (if negative && n != 0 then [MINUS] else []) + DecimalUnits(n)
  }

  /** BigInt(raw).toString() */
  function CanonInt(raw: Str): Str
    requires IntegerLiteral(raw)
  {
    SignedUnits(Negative(raw), Absolute(raw))
  }

  lemma UnitsAreDigits(s: string)
    requires AllDigits(s) && s != ""
    ensures DigitUnits(Units(s)) && DigitValues(Units(s)) == Digits(s)
  {
    assert forall i :: 0 <= i < |s| ==> IsDigit(s[i]);
  }

  lemma DecimalText(n: nat) returns (t: Str)
    ensures t == DecimalUnits(n) && DigitUnits(t) && Natural(t) == n
  {
    DecimalDigits(n);
    UnitsAreDigits(Decimal(n));
    t := DecimalUnits(n);
  }

  /** What a literal with this sign in front of these digits says. */
  lemma SignThenDigits(minus: bool, t: Str)
    requires DigitUnits(t)
    ensures var c := (if minus then [MINUS] else []) + t;
            Magnitude(c) == t && (Negative(c) <==> minus) && GoodNumber(c)
  {
    assert IsDigitUnit(t[0]);
    assert minus ==> ([MINUS] + t)[1..] == t;
    assert [] + t == t;
  }

  lemma SignedText(negative: bool, n: nat) returns (c: Str)
    ensures c == SignedUnits(negative, n) && IntegerLiteral(c) && GoodNumber(c) && Absolute(c) == n
    ensures Negative(c) <==> negative && n != 0
  {
    var t := DecimalText(n);
    SignThenDigits(negative && n != 0, t);
    c := SignedUnits(negative, n);
  }

  /** The canonical literal is a literal of the same number. */
  lemma CanonIntKeeps(raw: Str)
    requires IntegerLiteral(raw)
    ensures var c := CanonInt(raw);
            && IntegerLiteral(c) && GoodNumber(c) && Absolute(c) == Absolute(raw)
            && (Negative(c) <==> Negative(raw) && Absolute(raw) != 0)
            && CanonInt(c) == c
  {
    var c := SignedText(Negative(raw), Absolute(raw));
  }

  // --- Key order ------------------------------------------------------------------------

  /** The default JavaScript string order, by code unit. */
  predicate Less(a: Str, b: Str) {
    b != [] && (a == [] || a[0] < b[0] || (a[0] == b[0] && Less(a[1..], b[1..])))
  }

  lemma {:induction false} LessTotal(a: Str, b: Str)
    ensures a == b || Less(a, b) || Less(b, a)
    ensures !(Less(a, b) && Less(b, a)) && !Less(a, a)
  {
    if a != [] && b != [] {
      LessTotal(a[1..], b[1..]);
      assert a == [a[0]] + a[1..] && b == [b[0]] + b[1..];
    }
    if a != [] {
      LessTotal(a[1..], a[1..]);
    }
  }

  lemma {:induction false} LessTransitive(a: Str, b: Str, c: Str)
    requires Less(a, b) && Less(b, c)
    ensures Less(a, c)
  {
    if a != [] && b[0] == a[0] && c[0] == b[0] {
      LessTransitive(a[1..], b[1..], c[1..]);
    }
  }

  ghost predicate Least(k: Str, ks: set<Str>) {
    k in ks && forall l :: l in ks ==> l == k || Less(k, l)
  }

  lemma {:induction false} LeastExists(ks: set<Str>)
    requires ks != {}
    ensures exists k :: Least(k, ks)
    decreases |ks|
  {
    var x :| x in ks;
    var rest := ks - {x};
    if rest == {} {
      forall l | l in ks ensures l == x {
        assert l != x ==> l in rest;
      }
      assert Least(x, ks);
    } else {
      LeastExists(rest);
      var y :| Least(y, rest);
      LessTotal(x, y);
      if Less(y, x) {
        forall l | l in ks ensures l == y || Less(y, l) {
          assert l == x || l in rest;
        }
        assert Least(y, ks);
      } else {
        forall l | l in ks ensures l == x || Less(x, l) {
          if l != x && l != y {
            LessTransitive(x, y, l);
          }
        }
        assert Least(x, ks);
      }
    }
  }

  /** Object.keys(obj).sort() */
  ghost function SortedKeys(ks: set<Str>): seq<Str>
    decreases |ks|
  {
    if ks == {} then []
    else
      LeastExists(ks);
      var k :| Least(k, ks);
      [k] + SortedKeys(ks - {k})
  }

  /** The sort keeps every key once, in strictly ascending order. */
  lemma {:induction false} SortedKeysSorts(ks: set<Str>)
    ensures forall k :: k in SortedKeys(ks) <==> k in ks
    ensures forall i, j :: 0 <= i < j < |SortedKeys(ks)| ==> Less(SortedKeys(ks)[i], SortedKeys(ks)[j])
    decreases |ks|
  {
    if ks != {} {
      var s := SortedKeys(ks);
      var k, rest := s[0], ks - {s[0]};
      assert Least(k, ks) && s == [k] + SortedKeys(rest) by {
        LeastExists(ks);
      }
      SortedKeysSorts(rest);
    }
  }

  // --- Serializing ------------------------------------------------------------------------

  /** Values whose serialization does not reach ECMAScript number formatting. */
  ghost predicate Serializable(v: JVal)
    decreases v
  {
    match v
    case JNull => true
    case JBool(_) => true
    case JStr(_) => true
    case JNum(raw) => IntegerLiteral(raw)
    case JArr(items) => forall i :: 0 <= i < |items| ==> Serializable(items[i])
    case JObj(m) =>
      && PROTO !in m
      && if NUM in m then m[NUM].JStr? && IntegerLiteral(m[NUM].text) else forall k :: k in m ==> Serializable(m[k])
  }

  ghost function Serialize(v: JVal): Str
    requires Serializable(v)
    decreases v, 1, 0
  {
    match v
    case JNull => NULL
    case JBool(b) => if b then TRUE else FALSE
    case JStr(s) => [QUOTE] + Escaped(s) + [QUOTE]
    case JNum(raw) => CanonInt(raw)
    case JArr(items) => [OPEN_BRACKET] + SerializeItems(v, 0) + [CLOSE_BRACKET]
    case JObj(m) =>
      if NUM in m then CanonInt(m[NUM].text)
      else
        SortedKeysSorts(m.Keys);
        [OPEN_BRACE] + SerializeMembers(v, SortedKeys(m.Keys)) + [CLOSE_BRACE]
  }

  /** The items from i on, joined by commas. */
  ghost function SerializeItems(v: JVal, i: nat): Str
    requires v.JArr? && Serializable(v) && i <= |v.items|
    decreases v, 0, |v.items| - i
  {
    if i == |v.items| then []
    else Serialize(v.items[i]) + if i + 1 == |v.items| then [] else [COMMA] + SerializeItems(v, i + 1)
  }

  ghost function SerializeMember(v: JVal, k: Str): Str
    requires v.JObj? && Serializable(v) && NUM !in v.members && k in v.members
    decreases v, 0, 0
  {
    [QUOTE] + Escaped(k) + [QUOTE] + [COLON] + Serialize(v.members[k])
  }

  ghost function SerializeMembers(v: JVal, ks: seq<Str>): Str
    requires v.JObj? && Serializable(v) && NUM !in v.members && forall k :: k in ks ==> k in v.members
    decreases v, 0, |ks| + 1
  {
    if ks == [] then []
    else SerializeMember(v, ks[0]) + if ks[1..] == [] then [] else [COMMA] + SerializeMembers(v, ks[1..])
  }

  /** What a serialized value says: canonical integers, and a number for every
      object that looks like one. */
  ghost function Read(v: JVal): JVal
    requires Serializable(v)
    decreases v
  {
    match v
    case JNull => v
    case JBool(_) => v
    case JStr(_) => v
    case JNum(raw) => JNum(CanonInt(raw))
    case JArr(items) => JArr(seq(|items|, i requires 0 <= i < |items| => Read(items[i])))
    case JObj(m) => if NUM in m then JNum(CanonInt(m[NUM].text)) else JObj(map k | k in m :: Read(m[k]))
  }
}
