/** What the canonical text of sdk/typescript/src/jcs.ts is, unit by unit: the
    strings, numbers and key order of RFC 8785 (section 3.2), and that no stricter
    spelling of the same value is shorter. */
module CanonicalText {
  import opened Decimals
  import opened Jcs
  import opened JcsSerializer
  import opened JsonText
  import opened Canonical
  import opened Wrappers
  import Radix

  // --- Strings --------------------------------------------------------------------------

  function LowerHex(d: nat): Unit
    requires d < 16
  {
    if d < 10 then 0x30 + d else 0x57 + d
  }

  /** Section 3.2.2.2 of RFC 8785: a backslash before the quote and the backslash,
      five one-letter escapes, \u00xx for the other controls, and all else as it is. */
  function RfcUnit(u: Unit): Str {
    if u == 0x22 then [0x5C, 0x22]
    else if u == 0x5C then [0x5C, 0x5C]
    else if u == 0x08 then [0x5C, 0x62]
    else if u == 0x09 then [0x5C, 0x74]
    else if u == 0x0A then [0x5C, 0x6E]
    else if u == 0x0C then [0x5C, 0x66]
    else if u == 0x0D then [0x5C, 0x72]
    else if u < 0x20 then [0x5C, 0x75, 0x30, 0x30, if u < 0x10 then 0x30 else 0x31, LowerHex(u % 16)]
    else [u]
  }

  function RfcUnits(s: Str): Str {
    if s == [] then [] else RfcUnit(s[0]) + RfcUnits(s[1..])
  }

  function RfcString(s: Str): Str {
    [0x22] + RfcUnits(s) + [0x22]
  }

  lemma UnitIs(u: Unit)
    ensures EscapeUnit(u) == RfcUnit(u)
  {}

  lemma {:induction false} UnitsAre(s: Str)
    ensures Escaped(s) == RfcUnits(s)
  {
    if s != [] {
      UnitIs(s[0]);
      UnitsAre(s[1..]);
    }
  }

  /** A unit stands for itself exactly when it is no control, quote or backslash. */
  lemma UnescapedIff(u: Unit)
    ensures Serialize(JStr([u])) == [0x22, u, 0x22] <==> u >= 0x20 && u != 0x22 && u != 0x5C
  {
    UnitsAre([u]);
    assert RfcUnits([u]) == RfcUnit(u) + RfcUnits([]);
    assert |Serialize(JStr([u]))| == 2 + |RfcUnit(u)|;
    if |RfcUnit(u)| == 1 {
      assert Serialize(JStr([u])) == [0x22, u, 0x22];
    }
  }

  // --- Numbers --------------------------------------------------------------------------

  function ZeroUnits(k: nat): Str {
    seq(k, _ => 0x30)
  }

  /** raw is a sign, k zeros that say nothing, and the digits; zero keeps no sign in text. */
  ghost predicate StripsTo(raw: Str, k: nat, digits: Str, text: Str) {
    var minus := raw != [] && raw[0] == 0x2D;
    && raw == (if minus then [0x2D] else []) + ZeroUnits(k) + digits
    && digits != [] && (digits[0] == 0x30 ==> digits == [0x30])
    && text == (if minus && digits != [0x30] then [0x2D] else []) + digits
  }

  /** text is the integer literal raw without its leading zeros, and zero has no sign. */
  ghost predicate Stripped(raw: Str, text: Str) {
    exists k, digits :: StripsTo(raw, k, digits, text)
  }

  /** The digits after the leading zeros, of which one stays if there is nothing else. */
  lemma {:induction false} Strip(t: Str) returns (k: nat, digits: Str)
    requires DigitUnits(t)
    ensures t == ZeroUnits(k) + digits && DigitUnits(digits) && (digits[0] == 0x30 ==> digits == [0x30])
  {
    if |t| > 1 && t[0] == 0x30 {
      assert DigitUnits(t[1..]);
      k, digits := Strip(t[1..]);
      assert ZeroUnits(k + 1) + digits == [0x30] + (ZeroUnits(k) + digits);
      k := k + 1;
    } else {
      k, digits := 0, t;
      assert ZeroUnits(0) + t == t;
    }
  }

  /** Digits without leading zeros are the decimal text of the number they denote. */
  lemma DigitsAreDecimal(digits: Str)
    requires DigitUnits(digits) && (digits[0] == 0x30 ==> digits == [0x30])
    ensures DecimalUnits(Natural(digits)) == digits && (Natural(digits) == 0 <==> digits == [0x30])
  {
    var ds := DigitValues(digits);
    if digits == [0x30] {
      assert ds == [0];
      assert Radix.Value([0], 10) == 0;
      assert DecimalUnits(0) == [0x30];
    } else {
      assert ds[0] != 0;
      assert Radix.Digits(ds, 10);
      Radix.ValueNumeral(ds, 10);
      DecimalDigits(Natural(digits));
      assert DecimalUnits(Natural(digits)) == digits;
    }
  }

  lemma ZerosDenoteNothing(k: nat, digits: Str)
    ensures Natural(ZeroUnits(k) + digits) == Natural(digits)
  {
    assert DigitValues(ZeroUnits(k) + digits) == Radix.Zeros(k) + DigitValues(digits);
    Radix.ValueLeadingZeros(k, DigitValues(digits), 10);
  }

  /** The canonical number is the literal without leading zeros. */
  lemma NumberIs(raw: Str)
    requires IntegerLiteral(raw)
    ensures Stripped(raw, CanonInt(raw))
  {
    var k, digits := Strip(Magnitude(raw));
    ZerosDenoteNothing(k, digits);
    DigitsAreDecimal(digits);
    assert raw == (if raw[0] == 0x2D then [0x2D] else []) + ZeroUnits(k) + digits;
    assert StripsTo(raw, k, digits, CanonInt(raw));
  }

  // --- Arrays and objects -----------------------------------------------------------------

  /** By the first unit in which they differ, or as a prefix. */
  ghost predicate Before(a: Str, b: Str) {
    exists p :: 0 <= p <= |a| && p < |b| && a[..p] == b[..p] && (p == |a| || a[p] < b[p])
  }

  lemma {:induction false} LessIsBefore(a: Str, b: Str)
    requires Less(a, b)
    ensures Before(a, b)
  {
    if a != [] && a[0] == b[0] {
      LessIsBefore(a[1..], b[1..]);
      var p :| 0 <= p <= |a[1..]| && p < |b[1..]| && a[1..][..p] == b[1..][..p]
        && (p == |a[1..]| || a[1..][p] < b[1..][p]);
      assert a[..p + 1] == [a[0]] + a[1..][..p] && b[..p + 1] == [b[0]] + b[1..][..p];
    } else {
      assert a[..0] == b[..0];
    }
  }

  ghost predicate InOrder(ks: seq<Str>, keys: set<Str>) {
    && (forall k :: k in ks <==> k in keys)
    && (forall i, j :: 0 <= i < j < |ks| ==> Before(ks[i], ks[j]))
  }

  /** Joined by commas. */
  function Joined(parts: seq<Str>): Str {
    if parts == [] then []
    else if |parts| == 1 then parts[0]
    else parts[0] + [0x2C] + Joined(parts[1..])
  }

  lemma JoinedHead(part: Str, parts: seq<Str>)
    ensures Joined([part] + parts) == if parts == [] then part else part + [0x2C] + Joined(parts)
  {
    assert ([part] + parts)[1..] == parts;
  }

  ghost function ItemTexts(v: JVal, i: nat): seq<Str>
    requires v.JArr? && Serializable(v) && i <= |v.items|
  {
    seq(|v.items| - i, k requires 0 <= k < |v.items| - i => Serialize(v.items[i + k]))
  }

  ghost function MemberTexts(v: JVal, ks: seq<Str>): seq<Str>
    requires v.JObj? && Serializable(v) && NUM !in v.members && forall k :: k in ks ==> k in v.members
  {
    seq(|ks|, i requires 0 <= i < |ks| => RfcString(ks[i]) + [0x3A] + Serialize(v.members[ks[i]]))
  }

  lemma ItemTextsSplit(v: JVal, i: nat)
    requires v.JArr? && Serializable(v) && i < |v.items|
    ensures ItemTexts(v, i) == [Serialize(v.items[i])] + ItemTexts(v, i + 1)
  {}

  lemma {:induction false} ItemsJoined(v: JVal, i: nat)
    requires v.JArr? && Serializable(v) && i <= |v.items|
    ensures SerializeItems(v, i) == Joined(ItemTexts(v, i))
    decreases |v.items| - i
  {
    if i < |v.items| {
      ItemsJoined(v, i + 1);
      ItemTextsSplit(v, i);
      JoinedHead(Serialize(v.items[i]), ItemTexts(v, i + 1));
      Regroup(Serialize(v.items[i]), [0x2C], SerializeItems(v, i + 1));
    }
  }

  lemma {:induction false} MembersJoined(v: JVal, ks: seq<Str>)
    requires v.JObj? && Serializable(v) && NUM !in v.members && forall k :: k in ks ==> k in v.members
    ensures SerializeMembers(v, ks) == Joined(MemberTexts(v, ks))
    decreases |ks|
  {
    if ks != [] {
      UnitsAre(ks[0]);
      MembersJoined(v, ks[1..]);
      JoinedHead(SerializeMember(v, ks[0]), MemberTexts(v, ks[1..]));
      assert MemberTexts(v, ks) == [SerializeMember(v, ks[0])] + MemberTexts(v, ks[1..]);
      Regroup(SerializeMember(v, ks[0]), [0x2C], SerializeMembers(v, ks[1..]));
    }
  }

  /** The canonical text of every value. */
  lemma TextIs(v: JVal)
    requires Serializable(v)
    ensures v.JNull? ==> Serialize(v) == [0x6E, 0x75, 0x6C, 0x6C]
    ensures v.JBool? ==>
      Serialize(v) == if v.b then [0x74, 0x72, 0x75, 0x65] else [0x66, 0x61, 0x6C, 0x73, 0x65]
    ensures v.JStr? ==> Serialize(v) == RfcString(v.text)
    ensures v.JNum? ==> Stripped(v.raw, Serialize(v))
    ensures v.JArr? ==> Serialize(v) == [0x5B] + Joined(ItemTexts(v, 0)) + [0x5D]
    ensures v.JObj? && NUM in v.members ==> Stripped(v.members[NUM].text, Serialize(v))
    ensures v.JObj? && NUM !in v.members ==>
      exists ks :: InOrder(ks, v.members.Keys) && Serialize(v) == [0x7B] + Joined(MemberTexts(v, ks)) + [0x7D]
  {
    if v.JStr? {
      UnitsAre(v.text);
    } else if v.JNum? {
      NumberIs(v.raw);
    } else if v.JArr? {
      ItemsJoined(v, 0);
    } else if v.JObj? {
      if NUM in v.members {
        NumberIs(v.members[NUM].text);
      } else {
        ObjectTextIs(v);
      }
    }
  }

  lemma ObjectTextIs(v: JVal)
    requires Serializable(v) && v.JObj? && NUM !in v.members
    ensures exists ks :: InOrder(ks, v.members.Keys) && Serialize(v) == [0x7B] + Joined(MemberTexts(v, ks)) + [0x7D]
  {
    var ks := SortedKeys(v.members.Keys);
    SortedKeysSorts(v.members.Keys);
    forall i, j | 0 <= i < j < |ks|
      ensures Before(ks[i], ks[j])
    {
      LessIsBefore(ks[i], ks[j]);
    }
    assert InOrder(ks, v.members.Keys);
    MembersJoined(v, ks);
  }

  // --- No spelling is shorter ---------------------------------------------------------------

  /** No string holds a control character as it is (section 7 of RFC 8259). */
  predicate Strict(j: Json)
    decreases j
  {
    match j
    case Text(cs) => StrictChars(cs)
    case List(_, items) => forall i :: 0 <= i < |items| ==> StrictItem(items[i])
    case Dict(_, ms) => forall i :: 0 <= i < |ms| ==> StrictMember(ms[i])
    case _ => true
  }

  predicate StrictChars(cs: seq<Spelling>) {
    forall i :: 0 <= i < |cs| ==> cs[i].Plain? ==> cs[i].u >= 0x20
  }

  predicate StrictItem(item: Item)
    decreases item
  {
    Strict(item.v)
  }

  predicate StrictMember(m: Member)
    decreases m
  {
    StrictChars(m.key) && StrictItem(m.item)
  }

  lemma {:induction false} ShortestChars(cs: seq<Spelling>)
    requires GoodChars(cs) && StrictChars(cs)
    ensures |CharsText(cs)| >= |Escaped(CharsValue(cs))|
  {
    if cs != [] {
      ShortestChars(cs[1..]);
      assert CharsValue(cs)[1..] == CharsValue(cs[1..]);
      ShortestChar(cs[0]);
    }
  }

  lemma ShortestChar(c: Spelling)
    requires GoodSpelling(c) && (c.Plain? ==> c.u >= 0x20)
    ensures |SpellingText(c)| >= |EscapeUnit(SpellingValue(c))|
  {}

  /** What each item costs, with the comma or bracket after it. */
  function Total(costs: seq<nat>): nat {
    if costs == [] then 0 else costs[0] + Total(costs[1..])
  }

  lemma {:induction false} TotalSplits(a: seq<nat>, b: seq<nat>)
    ensures Total(a + b) == Total(a) + Total(b)
  {
    if a == [] {
      assert a + b == b;
    } else {
      assert (a + b)[1..] == a[1..] + b;
      TotalSplits(a[1..], b);
    }
  }

  lemma {:induction false} TotalMonotone(a: seq<nat>, b: seq<nat>)
    requires |a| == |b| && forall i :: 0 <= i < |a| ==> a[i] <= b[i]
    ensures Total(a) <= Total(b)
  {
    if a != [] {
      TotalMonotone(a[1..], b[1..]);
    }
  }

  /** Some entry has this key and costs as much. */
  ghost predicate HasEntry(keys: seq<Str>, weights: seq<nat>, k: Str, cost: nat) {
    |keys| == |weights| && exists j :: 0 <= j < |keys| && keys[j] == k && weights[j] >= cost
  }

  lemma EntryStays(keys: seq<Str>, weights: seq<nat>, j: nat, k: Str, cost: nat)
    requires HasEntry(keys, weights, k, cost) && j < |keys| && keys[j] != k
    ensures HasEntry(keys[..j] + keys[j + 1..], weights[..j] + weights[j + 1..], k, cost)
  {
    var l :| 0 <= l < |keys| && keys[l] == k && weights[l] >= cost;
    var l' := if l < j then l else l - 1;
    assert (keys[..j] + keys[j + 1..])[l'] == k && (weights[..j] + weights[j + 1..])[l'] == weights[l];
  }

  /** Distinct keys that each have an entry as costly cost no more than all entries. */
  lemma {:induction false} Covered(ks: seq<Str>, costs: seq<nat>, keys: seq<Str>, weights: seq<nat>)
    requires |ks| == |costs| && |keys| == |weights| && forall i, j :: 0 <= i < j < |ks| ==> ks[i] != ks[j]
    requires forall i :: 0 <= i < |ks| ==> HasEntry(keys, weights, ks[i], costs[i])
    ensures Total(costs) <= Total(weights)
    decreases |ks|
  {
    if ks != [] {
      assert HasEntry(keys, weights, ks[0], costs[0]);
      var j :| 0 <= j < |keys| && keys[j] == ks[0] && weights[j] >= costs[0];
      var keys', weights' := keys[..j] + keys[j + 1..], weights[..j] + weights[j + 1..];
      forall i | 0 <= i < |ks[1..]|
        ensures HasEntry(keys', weights', ks[1..][i], costs[1..][i])
      {
        assert HasEntry(keys, weights, ks[i + 1], costs[i + 1]);
        EntryStays(keys, weights, j, ks[i + 1], costs[i + 1]);
      }
      Covered(ks[1..], costs[1..], keys', weights');
      TotalSplits(weights[..j], weights[j..]);
      TotalSplits(weights[..j], weights[j + 1..]);
      assert weights == weights[..j] + weights[j..] && weights[j..][1..] == weights[j + 1..];
    }
  }

  // --- ... for arrays -----------------------------------------------------------------------

  function ItemCosts(items: seq<Item>): seq<nat> {
    seq(|items|, i requires 0 <= i < |items| => |ItemText(items[i])| + 1)
  }

  lemma {:induction false} ItemsCost(items: seq<Item>)
    requires items != []
    ensures |ItemsText(items)| + 1 == Total(ItemCosts(items))
    decreases |items|
  {
    assert ItemCosts(items)[1..] == ItemCosts(items[1..]);
    if items[1..] != [] {
      ItemsCost(items[1..]);
    }
  }

  ghost function ValueCosts(v: JVal, i: nat): seq<nat>
    requires v.JArr? && Serializable(v) && i <= |v.items|
  {
    seq(|v.items| - i, k requires 0 <= k < |v.items| - i => |Serialize(v.items[i + k])| + 1)
  }

  lemma {:induction false} ValuesCost(v: JVal, i: nat)
    requires v.JArr? && Serializable(v) && i < |v.items|
    ensures |SerializeItems(v, i)| + 1 == Total(ValueCosts(v, i))
    decreases |v.items| - i
  {
    assert ValueCosts(v, i)[1..] == ValueCosts(v, i + 1);
    if i + 1 < |v.items| {
      ValuesCost(v, i + 1);
    }
  }

  // --- ... for objects ----------------------------------------------------------------------

  function MemberCosts(ms: seq<Member>): seq<nat> {
    seq(|ms|, i requires 0 <= i < |ms| => |MemberText(ms[i])| + 1)
  }

  function MemberKeys(ms: seq<Member>): seq<Str>
    requires forall i :: 0 <= i < |ms| ==> GoodMember(ms[i])
  {
    seq(|ms|, i requires 0 <= i < |ms| => (assert GoodMember(ms[i]); CharsValue(ms[i].key)))
  }

  lemma {:induction false} MembersCost(ms: seq<Member>)
    requires ms != []
    ensures |MembersText(ms)| + 1 == Total(MemberCosts(ms))
    decreases |ms|
  {
    assert MemberCosts(ms)[1..] == MemberCosts(ms[1..]);
    if ms[1..] != [] {
      MembersCost(ms[1..]);
    }
  }

  ghost function KeyCosts(v: JVal, ks: seq<Str>): seq<nat>
    requires v.JObj? && Serializable(v) && NUM !in v.members && forall k :: k in ks ==> k in v.members
  {
    seq(|ks|, i requires 0 <= i < |ks| => |SerializeMember(v, ks[i])| + 1)
  }

  lemma {:induction false} KeysCost(v: JVal, ks: seq<Str>)
    requires v.JObj? && Serializable(v) && NUM !in v.members && forall k :: k in ks ==> k in v.members
    requires ks != []
    ensures |SerializeMembers(v, ks)| + 1 == Total(KeyCosts(v, ks))
    decreases |ks|
  {
    assert KeyCosts(v, ks)[1..] == KeyCosts(v, ks[1..]);
    if ks[1..] != [] {
      KeysCost(v, ks[1..]);
    }
  }

  /** A member of the object was written, or was there before. */
  lemma {:induction false} Written(ms: seq<Member>, out: map<Str, JVal>, k: Str)
    requires AllGood(ms) && k in MembersValue(ms, out)
    ensures (k in out && MembersValue(ms, out)[k] == out[k])
            || exists i :: 0 <= i < |ms| && KeyOf(ms[i]) == k && DenoteItem(ms[i].item) == MembersValue(ms, out)[k]
    decreases |ms|
  {
    if ms != [] {
      var rest, out' := ms[1..], out[KeyOf(ms[0]) := DenoteItem(ms[0].item)];
      assert forall i :: 0 <= i < |rest| ==> rest[i] == ms[i + 1];
      Written(rest, out', k);
      if i :| 0 <= i < |rest| && KeyOf(rest[i]) == k && DenoteItem(rest[i].item) == MembersValue(rest, out')[k] {
        assert KeyOf(ms[i + 1]) == k;
      } else if k == KeyOf(ms[0]) {
        assert KeyOf(ms[0]) == k;
      }
    }
  }

  /** A value whose numbers are canonical and none of whose objects looks like a number. */
  ghost predicate Plain(v: JVal) {
    Serializable(v) && Read(v) == v
  }

  lemma PlainParts(v: JVal)
    requires Plain(v)
    ensures v.JNum? ==> Serialize(v) == v.raw
    ensures v.JArr? ==> forall i :: 0 <= i < |v.items| ==> Plain(v.items[i])
    ensures v.JObj? ==> NUM !in v.members && forall k :: k in v.members ==> Plain(v.members[k])
  {
    if v.JArr? {
      forall i | 0 <= i < |v.items| ensures Plain(v.items[i]) {
        assert Read(v).items[i] == v.items[i];
      }
    } else if v.JObj? && NUM !in v.members {
      forall k | k in v.members ensures Plain(v.members[k]) {
        assert Read(v).members[k] == v.members[k];
      }
    }
  }

  lemma {:induction false} ShortestPlain(j: Json)
    requires Good(j) && Strict(j) && Plain(Denote(j))
    ensures |Render(j)| >= |Serialize(Denote(j))|
    decreases j, 3
  {
    var v := Denote(j);
    PlainParts(v);
    match j
    case Null =>
    case Bool(_) =>
    case Num(_) =>
    case Text(cs) => ShortestChars(cs);
    case List(_, items) =>
      if items != [] {
        forall i | 0 <= i < |items|
          ensures ValueCosts(v, 0)[i] <= ItemCosts(items)[i]
        {
          assert Plain(v.items[i]) && GoodItem(items[i]) && StrictItem(items[i]);
          ShortestPlain(items[i].v);
        }
        TotalMonotone(ValueCosts(v, 0), ItemCosts(items));
        ItemsCost(items);
        ValuesCost(v, 0);
      }
    case Dict(_, ms) => ShortestObject(j);
  }

  lemma {:induction false} ShortestMember(j: Json, v: JVal, i: nat)
    requires j.Dict? && i < |j.members| && Good(j) && Strict(j) && v.JObj? && Plain(v) && NUM !in v.members
    requires GoodMember(j.members[i])
    requires KeyOf(j.members[i]) in v.members && v.members[KeyOf(j.members[i])] == DenoteItem(j.members[i].item)
    requires Plain(DenoteItem(j.members[i].item))
    ensures |MemberText(j.members[i])| >= |SerializeMember(v, KeyOf(j.members[i]))|
    decreases j, 1
  {
    var m := j.members[i];
    assert GoodMember(m) && StrictMember(m) && GoodItem(m.item) && StrictItem(m.item);
    ShortestChars(m.key);
    ShortestPlain(m.item.v);
  }

  lemma {:induction false} ShortestObject(j: Json)
    requires j.Dict? && Good(j) && Strict(j) && Plain(Denote(j))
    ensures |Render(j)| >= |Serialize(Denote(j))|
    decreases j, 2
  {
    var v, ms := Denote(j), j.members;
    PlainParts(v);
    SortedKeysSorts(v.members.Keys);
    var ks := SortedKeys(v.members.Keys);
    if ks != [] {
      assert AllGood(ms);
      forall i | 0 <= i < |ks|
        ensures HasEntry(MemberKeys(ms), MemberCosts(ms), ks[i], KeyCosts(v, ks)[i])
      {
        Written(ms, map[], ks[i]);
        var l :| 0 <= l < |ms| && KeyOf(ms[l]) == ks[i] && DenoteItem(ms[l].item) == v.members[ks[i]];
        ShortestMember(j, v, l);
        assert MemberKeys(ms)[l] == ks[i] && MemberCosts(ms)[l] >= KeyCosts(v, ks)[i];
      }
      forall i, l | 0 <= i < l < |ks|
        ensures ks[i] != ks[l]
      {
        LessTotal(ks[i], ks[l]);
      }
      Covered(ks, KeyCosts(v, ks), MemberKeys(ms), MemberCosts(ms));
      assert ms != [] by {
        Written(ms, map[], ks[0]);
      }
      MembersCost(ms);
      KeysCost(v, ks);
    }
  }

  /** Of all strict texts that say what v says, the canonical one is the shortest. */
  lemma CanonicalIsShortest(v: JVal, j: Json)
    requires Serializable(v) && Good(j) && Strict(j) && Denote(j) == Read(v)
    ensures |Render(j)| >= |Serialize(v)|
  {
    SerializeRead(v);
    ShortestPlain(j);
  }

  lemma {:induction false} CanonIsStrict(v: JVal)
    requires Serializable(v)
    ensures Strict(Canon(v))
    decreases v
  {
    match v
    case JNull =>
    case JBool(_) =>
    case JStr(_) =>
    case JNum(_) =>
    case JArr(items) =>
      forall i | 0 <= i < |items| ensures StrictItem(Canon(v).items[i]) {
        CanonIsStrict(items[i]);
      }
    case JObj(m) =>
      if NUM !in m {
        SortedKeysSorts(m.Keys);
        var ks := SortedKeys(m.Keys);
        forall i | 0 <= i < |ks| ensures StrictMember(Canon(v).members[i]) {
          CanonIsStrict(m[ks[i]]);
          assert StrictItem(CanonMember(v, ks[i]).item);
        }
      }
  }

  /** And it is the text of one of them. */
  lemma CanonicalIsStrict(v: JVal)
    requires Serializable(v)
    ensures exists j :: Good(j) && Strict(j) && Denote(j) == Read(v) && Render(j) == Serialize(v)
  {
    CanonGood(v);
    CanonIsStrict(v);
    RenderCanon(v);
    DenoteCanon(v);
    assert Good(Canon(v)) && Strict(Canon(v)) && Denote(Canon(v)) == Read(v) && Render(Canon(v)) == Serialize(v);
  }

  // --- What the parser reads ------------------------------------------------------------------

  /** The unit a backslash and this letter stand for. */
  function EscapeOf(e: Unit): Option<Unit> {
    if e == 0x22 || e == 0x5C || e == 0x2F then Some(e)
    else if e == 0x62 then Some(0x08)
    else if e == 0x66 then Some(0x0C)
    else if e == 0x6E then Some(0x0A)
    else if e == 0x72 then Some(0x0D)
    else if e == 0x74 then Some(0x09)
    else None
  }

  lemma EscapeIs(e: Unit, t: Str)
    requires e != 0x75
    ensures Escape([e] + t) == if EscapeOf(e).Some? then Success((EscapeOf(e).value, t))
            else Failure(BadEscape(Some(e)))
  {
    assert ([e] + t)[1..] == t;
  }

  /** A string of one escape is read as its unit, or refused for the letter. */
  lemma EscapeRead(e: Unit)
    requires e != 0x75
    ensures Parse([0x22, 0x5C, e, 0x22])
            == if EscapeOf(e).Some? then Success(JStr([EscapeOf(e).value])) else Failure(BadEscape(Some(e)))
  {
    var t: Str := [0x22, 0x5C, e, 0x22];
    var t1, t2: Str := t[1..], [e] + [0x22];
    EscapeIs(e, [0x22]);
    assert |t1| == 3 && t1[0] == 0x5C && t1[1] == e && t1[2] == 0x22;
    assert t1[1..] == t2;
    assert Ws(t) == t;
    if EscapeOf(e).Some? {
      var u := EscapeOf(e).value;
      var quote, none: Str := [0x22], [];
      assert quote[1..] == none && none + [u] == [u];
      assert Chars(quote, [u]) == Success(([u], none));
      assert Chars(t1, []) == Success(([u], []));
      assert String(t) == Success(([u], []));
      assert Ws([]) == [];
    } else {
      assert Chars(t1, []).Failure?;
    }
  }

  /** Before a value, exactly these four units are skipped. */
  lemma WhiteSpaceIs(c: Unit)
    ensures c == 0x20 || c == 0x09 || c == 0x0A || c == 0x0D ==> Parse([c] + NULL) == Success(JNull)
    ensures Ws([c]) == [] <==> c == 0x20 || c == 0x09 || c == 0x0A || c == 0x0D
  {
    var t := [c] + NULL;
    assert t[1..] == NULL && Ws(NULL) == NULL && [c][1..] == [] && NULL[|NULL|..] == [];
    assert Value(NULL) == Success((JNull, []));
  }

  lemma NumberUnitIs(c: Unit)
    ensures IsNumberUnit(c) <==> 0x30 <= c <= 0x39 || c == 0x2E || c == 0x65 || c == 0x45 || c == 0x2B || c == 0x2D
  {}

  /** A number goes on for digits, dots, exponents and signs, whatever their order. */
  lemma NumberRead(d: Unit, c: Unit)
    requires 0x30 <= d <= 0x39
    ensures Parse([d, c]) == Success(JNum([d, c]))
            <==> 0x30 <= c <= 0x39 || c == 0x2E || c == 0x65 || c == 0x45 || c == 0x2B || c == 0x2D
  {
    var t := [d, c];
    NumberUnitIs(c);
    assert t[1..] == [c] && [c][1..] == [];
    assert Ws(t) == t;
    assert NumberRun([c]) == if IsNumberUnit(c) then 1 else 0;
    assert NumberRun(t) == 1 + NumberRun([c]);
    assert Value(t) == Success((JNum(t[..NumberRun(t)]), t[NumberRun(t)..]));
    if IsNumberUnit(c) {
      assert t[..2] == t && t[2..] == [] && Ws([]) == [];
    } else {
      assert |t[..1]| == 1;
    }
  }

  /** The value of a hex digit of either case. */
  function HexOf(c: Unit): Option<nat> {
    if 0x30 <= c <= 0x39 then Some(c - 0x30)
    else if 0x41 <= c <= 0x46 then Some(c - 0x37)
    else if 0x61 <= c <= 0x66 then Some(c - 0x57)
    else None
  }

  /** Four hex digits are read as the unit they write. */
  lemma HexRead(d: Str)
    requires |d| == 4 && forall i :: 0 <= i < 4 ==> HexOf(d[i]).Some?
    ensures CodeUnit(d)
            == HexOf(d[0]).value * 4096 + HexOf(d[1]).value * 256 + HexOf(d[2]).value * 16 + HexOf(d[3]).value
  {
    forall i | 0 <= i < 4
      ensures HexDigit(d[i]) == HexOf(d[i])
    {}
    CodeUnitBack(d);
  }
}
