/** What canonicalizing keeps: the serialized text of a value parses back to it,
    so the canonical form depends on the value alone and names it uniquely. */
module Canonical {
  import opened Jcs
  import opened JcsSerializer
  import opened JsonText
  import opened Wrappers

  // --- Serialized text is JSON text -----------------------------------------------------

  function CanonChar(u: Unit): Spelling {
    if ShortFor(u).Some? then Short(ShortFor(u).value)
    else if u < 0x20 then Hex([ZERO, ZERO, HexChar(u / 16), HexChar(u % 16)])
    else Plain(u)
  }

  function CanonChars(s: Str): seq<Spelling> {
    seq(|s|, i requires 0 <= i < |s| => CanonChar(s[i]))
  }

  /** The JSON text serialize writes for v. */
  ghost function Canon(v: JVal): Json
    requires Serializable(v)
    decreases v, 1
  {
    match v
    case JNull => Null
    case JBool(b) => Bool(b)
    case JStr(s) => Text(CanonChars(s))
    case JNum(raw) => Num(CanonInt(raw))
    case JArr(items) => List([], seq(|items|, i requires 0 <= i < |items| => Item([], Canon(items[i]), [])))
    case JObj(m) =>
      if NUM in m then Num(CanonInt(m[NUM].text))
      else
        SortedKeysSorts(m.Keys);
        Dict([], CanonMembers(v, SortedKeys(m.Keys)))
  }

  ghost function CanonMember(v: JVal, k: Str): Member
    requires v.JObj? && Serializable(v) && NUM !in v.members && k in v.members
    decreases v, 0, 0
  {
    Member([], CanonChars(k), [], Item([], Canon(v.members[k]), []))
  }

  ghost function CanonMembers(v: JVal, ks: seq<Str>): (r: seq<Member>)
    requires v.JObj? && Serializable(v) && NUM !in v.members && forall k :: k in ks ==> k in v.members
    ensures |r| == |ks|
    decreases v, 0, 1
  {
    seq(|ks|, i requires 0 <= i < |ks| => CanonMember(v, ks[i]))
  }

  /** The canonical spelling of a unit is a spelling of it. */
  lemma CanonCharGood(u: Unit)
    ensures GoodSpelling(CanonChar(u)) && SpellingValue(CanonChar(u)) == u
    ensures SpellingText(CanonChar(u)) == EscapeUnit(u)
  {
    if ShortFor(u).None? && u < 0x20 {
      assert u / 16 == 0 || u / 16 == 1;
      assert HexDigit(HexChar(u / 16)) == Some(u / 16) && HexDigit(HexChar(u % 16)) == Some(u % 16);
      assert HexDigit(ZERO) == Some(0);
    }
  }

  lemma CanonCharsGood(s: Str)
    ensures GoodChars(CanonChars(s)) && CharsValue(CanonChars(s)) == s
  {
    forall i | 0 <= i < |s|
      ensures GoodSpelling(CanonChars(s)[i]) && SpellingValue(CanonChars(s)[i]) == s[i]
    {
      CanonCharGood(s[i]);
    }
  }

  lemma {:induction false} CanonCharsText(s: Str)
    ensures CharsText(CanonChars(s)) == Escaped(s)
  {
    if s != [] {
      CanonCharGood(s[0]);
      CanonCharsText(s[1..]);
      assert CanonChars(s)[1..] == CanonChars(s[1..]);
    }
  }

  lemma {:induction false} CanonGood(v: JVal)
    requires Serializable(v)
    ensures Good(Canon(v))
    decreases v
  {
    match v
    case JNull =>
    case JBool(_) =>
    case JStr(s) => CanonCharsGood(s);
    case JNum(raw) => CanonIntKeeps(raw);
    case JArr(items) =>
      forall i | 0 <= i < |items| ensures GoodItem(Item([], Canon(items[i]), [])) {
        CanonGood(items[i]);
      }
    case JObj(m) =>
      if NUM in m {
        CanonIntKeeps(m[NUM].text);
      } else {
        SortedKeysSorts(m.Keys);
        var ks := SortedKeys(m.Keys);
        forall i | 0 <= i < |ks| ensures GoodMember(CanonMembers(v, ks)[i]) {
          assert ks[i] in ks;
          CanonCharsGood(ks[i]);
          CanonGood(m[ks[i]]);
        }
      }
  }

  lemma {:induction false} RenderCanon(v: JVal)
    requires Serializable(v)
    ensures Render(Canon(v)) == Serialize(v)
    decreases v, 1, 0
  {
    match v
    case JNull =>
    case JBool(_) =>
    case JStr(s) => CanonCharsText(s);
    case JNum(_) =>
    case JArr(items) =>
      RenderItems(v, 0);
      assert Canon(v).items[0..] == Canon(v).items;
    case JObj(m) =>
      if NUM !in m {
        SortedKeysSorts(m.Keys);
        RenderMembers(v, SortedKeys(m.Keys));
      }
  }

  lemma {:induction false} RenderItems(v: JVal, i: nat)
    requires v.JArr? && Serializable(v) && i <= |v.items|
    ensures |Canon(v).items| == |v.items|
    ensures ItemsText(Canon(v).items[i..]) == SerializeItems(v, i)
    decreases v, 0, |v.items| - i
  {
    if i < |v.items| {
      var items := Canon(v).items;
      RenderCanon(v.items[i]);
      RenderItems(v, i + 1);
      assert items[i..][1..] == items[i + 1..] && items[i..][0] == items[i];
      PlainItem(Canon(v.items[i]));
    }
  }

  lemma PlainItem(j: Json)
    ensures ItemText(Item([], j, [])) == Render(j)
  {
    assert [] + Render(j) + [] == Render(j);
  }

  lemma {:induction false} RenderMembers(v: JVal, ks: seq<Str>)
    requires v.JObj? && Serializable(v) && NUM !in v.members && forall k :: k in ks ==> k in v.members
    ensures MembersText(CanonMembers(v, ks)) == SerializeMembers(v, ks)
    decreases v, 0, |ks|
  {
    if ks != [] {
      var k := ks[0];
      RenderCanon(v.members[k]);
      RenderMembers(v, ks[1..]);
      assert CanonMembers(v, ks)[1..] == CanonMembers(v, ks[1..]);
      PlainMember(v, k);
    }
  }

  lemma PlainMember(v: JVal, k: Str)
    requires v.JObj? && Serializable(v) && NUM !in v.members && k in v.members
    requires Render(Canon(v.members[k])) == Serialize(v.members[k])
    ensures MemberText(CanonMember(v, k)) == SerializeMember(v, k)
  {
    CanonCharsText(k);
    PlainItem(Canon(v.members[k]));
    assert [] + Quoted(CanonChars(k)) + [] == Quoted(CanonChars(k));
  }

  lemma {:induction false} DenoteCanon(v: JVal)
    requires Serializable(v)
    ensures Good(Canon(v)) && Denote(Canon(v)) == Read(v)
    decreases v, 1, 0
  {
    CanonGood(v);
    match v
    case JNull =>
    case JBool(_) =>
    case JStr(s) => CanonCharsGood(s);
    case JNum(_) =>
    case JArr(items) =>
      forall i | 0 <= i < |items| ensures Denote(Canon(v)).items[i] == Read(v).items[i] {
        DenoteCanon(items[i]);
      }
      assert Denote(Canon(v)).items == Read(v).items;
    case JObj(m) =>
      if NUM !in m {
        SortedKeysSorts(m.Keys);
        DenoteMembers(v, SortedKeys(m.Keys), map[]);
        SameMembers(v, MembersValue(CanonMembers(v, SortedKeys(m.Keys)), map[]));
      }
  }

  lemma SameMembers(v: JVal, r: map<Str, JVal>)
    requires v.JObj? && Serializable(v) && NUM !in v.members
    requires r.Keys == v.members.Keys && forall k :: k in r ==> r[k] == Read(v.members[k])
    ensures r == Read(v).members
  {}

  lemma {:induction false} DenoteMembers(v: JVal, ks: seq<Str>, out: map<Str, JVal>)
    requires v.JObj? && Serializable(v) && NUM !in v.members && forall k :: k in ks ==> k in v.members
    ensures forall i :: 0 <= i < |ks| ==> GoodMember(CanonMembers(v, ks)[i])
    ensures var r := MembersValue(CanonMembers(v, ks), out);
            && r.Keys == out.Keys + (set k | k in ks)
            && forall k :: k in r ==> r[k] == if k in ks then Read(v.members[k]) else out[k]
    decreases v, 0, |ks|
  {
    forall i | 0 <= i < |ks| ensures GoodMember(CanonMembers(v, ks)[i]) {
      CanonCharsGood(ks[i]);
      DenoteCanon(v.members[ks[i]]);
    }
    if ks != [] {
      CanonCharsGood(ks[0]);
      DenoteCanon(v.members[ks[0]]);
      assert CanonMembers(v, ks)[1..] == CanonMembers(v, ks[1..]);
      DenoteMembers(v, ks[1..], out[ks[0] := Read(v.members[ks[0]])]);
    }
  }

  // --- Round trips -------------------------------------------------------------------------

  /** Parsing what serialize wrote gives the value serialize saw. */
  lemma ParseSerialize(v: JVal)
    requires Serializable(v)
    ensures Parse(Serialize(v)) == Success(Read(v))
  {
    DenoteCanon(v);
    RenderCanon(v);
    ParseText([], Canon(v), []);
    assert [] + Serialize(v) + [] == Serialize(v);
  }

  /** Reading is stable: what was read is read, and written, the same way again. */
  lemma {:induction false} SerializeRead(v: JVal)
    requires Serializable(v)
    ensures Serializable(Read(v)) && Read(Read(v)) == Read(v) && Serialize(Read(v)) == Serialize(v)
    decreases v, 1, 0
  {
    var w := Read(v);
    match v
    case JNull =>
    case JBool(_) =>
    case JStr(_) =>
    case JNum(raw) => CanonIntKeeps(raw);
    case JArr(items) =>
      forall i | 0 <= i < |items| ensures Serializable(w.items[i]) && Read(w.items[i]) == w.items[i] {
        SerializeRead(items[i]);
      }
      assert Read(w).items == w.items;
      SerializeReadItems(v, 0);
    case JObj(m) =>
      if NUM in m {
        CanonIntKeeps(m[NUM].text);
      } else {
        forall k | k in m ensures Serializable(w.members[k]) && Read(w.members[k]) == w.members[k] {
          SerializeRead(m[k]);
        }
        assert w.members.Keys == m.Keys && Read(w).members == w.members;
        SortedKeysSorts(m.Keys);
        SerializeReadMembers(v, SortedKeys(m.Keys));
      }
  }

  lemma {:induction false} SerializeReadItems(v: JVal, i: nat)
    requires v.JArr? && Serializable(v) && Serializable(Read(v)) && i <= |v.items|
    ensures SerializeItems(Read(v), i) == SerializeItems(v, i)
    decreases v, 0, |v.items| - i
  {
    if i < |v.items| {
      SerializeRead(v.items[i]);
      SerializeReadItems(v, i + 1);
    }
  }

  lemma {:induction false} SerializeReadMembers(v: JVal, ks: seq<Str>)
    requires v.JObj? && Serializable(v) && NUM !in v.members && Serializable(Read(v))
    requires forall k :: k in ks ==> k in v.members
    ensures SerializeMembers(Read(v), ks) == SerializeMembers(v, ks)
    decreases v, 0, |ks|
  {
    if ks != [] {
      SerializeRead(v.members[ks[0]]);
      SerializeReadMembers(v, ks[1..]);
    }
  }

  /** Two values have one canonical form exactly when they read the same. */
  lemma SerializeInjective(v: JVal, w: JVal)
    requires Serializable(v) && Serializable(w)
    ensures Serialize(v) == Serialize(w) <==> Read(v) == Read(w)
  {
    ParseSerialize(v);
    ParseSerialize(w);
    SerializeRead(v);
    SerializeRead(w);
  }

  /** canonicalize, for texts whose value is serializable. */
  ghost function Canonicalize(text: Str): Result<Str, Error>
    requires Parse(text).Success? ==> Serializable(Parse(text).value)
  {
    match Parse(text)
    case Success(v) => Success(Serialize(v))
    case Failure(e) => Failure(e)
  }

  /** Canonical text is its own canonical form. */
  lemma CanonicalizeIdempotent(text: Str)
    requires Parse(text).Success? && Serializable(Parse(text).value)
    ensures var c := Canonicalize(text).value;
            && Parse(c).Success? && Serializable(Parse(c).value)
            && Canonicalize(c) == Success(c)
  {
    var v := Parse(text).value;
    ParseSerialize(v);
    SerializeRead(v);
  }

  /** Texts of one value, however spaced, spelled and ordered, share their
      canonical form; texts of values that read differently never do. */
  lemma CanonicalizeIff(j: Json, before: Str, after: Str, k: Json, before': Str, after': Str)
    requires Good(j) && Good(k) && AllWs(before) && AllWs(after) && AllWs(before') && AllWs(after')
    requires Serializable(Denote(j)) && Serializable(Denote(k))
    ensures Parse(before + Render(j) + after) == Success(Denote(j))
            && Parse(before' + Render(k) + after') == Success(Denote(k))
    ensures Canonicalize(before + Render(j) + after) == Canonicalize(before' + Render(k) + after')
            <==> Read(Denote(j)) == Read(Denote(k))
  {
    ParseText(before, j, after);
    ParseText(before', k, after');
    SerializeInjective(Denote(j), Denote(k));
  }

  // --- Member order ------------------------------------------------------------------------

  function KeyOf(m: Member): Str
    requires GoodMember(m)
  {
    CharsValue(m.key)
  }

  ghost predicate AllGood(ms: seq<Member>) {
    forall i :: 0 <= i < |ms| ==> GoodMember(ms[i])
  }

  ghost predicate DistinctKeys(ms: seq<Member>)
    requires AllGood(ms)
  {
    forall i, j :: 0 <= i < j < |ms| ==> KeyOf(ms[i]) != KeyOf(ms[j])
  }

  ghost predicate Names(ms: seq<Member>, k: Str)
    requires AllGood(ms)
  {
    exists i :: 0 <= i < |ms| && KeyOf(ms[i]) == k
  }

  lemma NamesSplit(ms: seq<Member>)
    requires AllGood(ms) && DistinctKeys(ms) && ms != []
    ensures AllGood(ms[1..]) && DistinctKeys(ms[1..]) && !Names(ms[1..], KeyOf(ms[0]))
    ensures forall k :: Names(ms, k) <==> k == KeyOf(ms[0]) || Names(ms[1..], k)
  {
    var rest, key := ms[1..], KeyOf(ms[0]);
    assert forall i :: 0 <= i < |rest| ==> rest[i] == ms[i + 1];
    forall k ensures Names(ms, k) <==> k == key || Names(rest, k) {
      if Names(rest, k) {
        var i :| 0 <= i < |rest| && KeyOf(rest[i]) == k;
        assert KeyOf(ms[i + 1]) == k;
      }
      if Names(ms, k) && k != key {
        var i :| 0 <= i < |ms| && KeyOf(ms[i]) == k;
        assert KeyOf(rest[i - 1]) == k;
      }
    }
  }

  /** With distinct keys the object has exactly the members written. */
  lemma {:induction false} MembersValueAt(ms: seq<Member>, out: map<Str, JVal>)
    requires AllGood(ms) && DistinctKeys(ms)
    ensures var r := MembersValue(ms, out);
            && (forall i :: 0 <= i < |ms| ==> KeyOf(ms[i]) in r && r[KeyOf(ms[i])] == DenoteItem(ms[i].item))
            && (forall k :: k in r <==> k in out || Names(ms, k))
            && (forall k :: k in out && !Names(ms, k) ==> r[k] == out[k])
  {
    if ms != [] {
      var rest := ms[1..];
      NamesSplit(ms);
      MembersValueAt(rest, out[KeyOf(ms[0]) := DenoteItem(ms[0].item)]);
      forall i | 0 <= i < |ms| ensures MembersValue(ms, out)[KeyOf(ms[i])] == DenoteItem(ms[i].item) {
        assert i > 0 ==> ms[i] == rest[i - 1];
      }
    }
  }

  /** Members with distinct keys may come in any order. */
  lemma MemberOrderIrrelevant(gap: Str, ms: seq<Member>, gap': Str, ms': seq<Member>)
    requires Good(Dict(gap, ms)) && Good(Dict(gap', ms')) && multiset(ms) == multiset(ms')
    requires AllGood(ms) && AllGood(ms') && DistinctKeys(ms) && DistinctKeys(ms')
    ensures Denote(Dict(gap, ms)) == Denote(Dict(gap', ms'))
  {
    MembersValueAt(ms, map[]);
    MembersValueAt(ms', map[]);
    var r, r' := MembersValue(ms, map[]), MembersValue(ms', map[]);
    forall k | k in r ensures k in r' && r'[k] == r[k] {
      SameMember(ms, ms', k);
    }
    forall k | k in r' ensures k in r {
      SameMember(ms', ms, k);
    }
  }

  lemma SameMember(ms: seq<Member>, ms': seq<Member>, k: Str)
    requires multiset(ms) == multiset(ms') && AllGood(ms) && AllGood(ms') && Names(ms, k)
    ensures Names(ms', k)
    ensures exists i, j :: 0 <= i < |ms| && 0 <= j < |ms'| && ms[i] == ms'[j] && KeyOf(ms[i]) == k
  {
    var i :| 0 <= i < |ms| && KeyOf(ms[i]) == k;
    assert ms[i] in multiset(ms');
    var j :| 0 <= j < |ms'| && ms'[j] == ms[i];
    assert KeyOf(ms'[j]) == k;
  }

  // --- Objects that look like numbers --------------------------------------------------------

  /** v with its integers in canonical form and nothing else changed. */
  ghost function Normal(v: JVal): JVal
    decreases v
  {
    match v
    case JNull => v
    case JBool(_) => v
    case JStr(_) => v
    case JNum(raw) => if IntegerLiteral(raw) then JNum(CanonInt(raw)) else v
    case JArr(items) => JArr(seq(|items|, i requires 0 <= i < |items| => Normal(items[i])))
    case JObj(m) => JObj(map k | k in m :: Normal(m[k]))
  }

  /** Somewhere in v an object has a member named __num. */
  ghost predicate HasNumKey(v: JVal)
    decreases v
  {
    match v
    case JArr(items) => exists i :: 0 <= i < |items| && HasNumKey(items[i])
    case JObj(m) => NUM in m || exists k :: k in m && HasNumKey(m[k])
    case _ => false
  }

  lemma {:induction false} ReadIsNormalIff(v: JVal)
    requires Serializable(v)
    ensures Read(v) == Normal(v) <==> !HasNumKey(v)
    decreases v
  {
    match v
    case JNull =>
    case JBool(_) =>
    case JStr(_) =>
    case JNum(_) =>
    case JArr(items) =>
      forall i | 0 <= i < |items| ensures Read(v).items[i] == Normal(v).items[i] <==> !HasNumKey(items[i]) {
        ReadIsNormalIff(items[i]);
      }
      if !HasNumKey(v) {
        assert Read(v).items == Normal(v).items;
      }
    case JObj(m) =>
      if NUM !in m {
        forall k | k in m ensures Read(v).members[k] == Normal(v).members[k] <==> !HasNumKey(m[k]) {
          ReadIsNormalIff(m[k]);
        }
        if !HasNumKey(v) {
          assert Read(v).members == Normal(v).members;
        }
      }
  }

  /** On JSON values, where a number is not an object: the text of a value parses
      back to it, integers made canonical, exactly when no object in it has a
      member named __num. */
  lemma RoundTripIff(v: JVal)
    requires Serializable(v)
    ensures Parse(Serialize(v)) == Success(Normal(v)) <==> !HasNumKey(v)
  {
    ParseSerialize(v);
    ReadIsNormalIff(v);
  }

  /** The object the parser builds for v: a number is an object with the one member __num. */
  ghost function Built(v: JVal): JVal
    decreases v
  {
    match v
    case JNum(raw) => JObj(map[NUM := JStr(raw)])
    case JArr(items) => JArr(seq(|items|, i requires 0 <= i < |items| => Built(items[i])))
    case JObj(m) => JObj(map k | k in m :: Built(m[k]))
    case _ => v
  }

  /** That object with its integers in canonical form. */
  ghost function BuiltNormal(v: JVal): JVal
    decreases v
  {
    match v
    case JNum(raw) => JObj(map[NUM := JStr(if IntegerLiteral(raw) then CanonInt(raw) else raw)])
    case JArr(items) => JArr(seq(|items|, i requires 0 <= i < |items| => BuiltNormal(items[i])))
    case JObj(m) =>
      JObj(map k | k in m ::
             if k == NUM && m[k].JStr? && IntegerLiteral(m[k].text) then JStr(CanonInt(m[k].text))
             else BuiltNormal(m[k]))
    case _ => v
  }

  /** An object with a member __num has no other member. */
  ghost predicate NumAlone(v: JVal)
    decreases v
  {
    match v
    case JArr(items) => forall i :: 0 <= i < |items| ==> NumAlone(items[i])
    case JObj(m) => if NUM in m then m.Keys == {NUM} else forall k :: k in m ==> NumAlone(m[k])
    case _ => true
  }

  lemma {:induction false} ReadIsBuiltIff(v: JVal)
    requires Serializable(v)
    ensures Built(Read(v)) == BuiltNormal(v) <==> NumAlone(v)
    decreases v
  {
    match v
    case JNull =>
    case JBool(_) =>
    case JStr(_) =>
    case JNum(_) =>
    case JArr(items) =>
      forall i | 0 <= i < |items| ensures Built(Read(v)).items[i] == BuiltNormal(v).items[i] <==> NumAlone(items[i]) {
        ReadIsBuiltIff(items[i]);
      }
      if NumAlone(v) {
        assert Built(Read(v)).items == BuiltNormal(v).items;
      }
    case JObj(m) =>
      if NUM in m {
        NumberIsBuiltIff(m);
      } else {
        forall k | k in m ensures Built(Read(v)).members[k] == BuiltNormal(v).members[k] <==> NumAlone(m[k]) {
          ReadIsBuiltIff(m[k]);
        }
        if NumAlone(v) {
          assert Built(Read(v)).members == BuiltNormal(v).members;
        }
      }
  }

  lemma NumberIsBuiltIff(m: map<Str, JVal>)
    requires Serializable(JObj(m)) && NUM in m
    ensures Built(Read(JObj(m))) == BuiltNormal(JObj(m)) <==> m.Keys == {NUM}
  {
    var built, normal := Built(Read(JObj(m))).members, BuiltNormal(JObj(m)).members;
    assert built.Keys == {NUM} && normal.Keys == m.Keys && built[NUM] == normal[NUM];
    assert m.Keys == {NUM} ==> built == normal;
  }

  /** On the parser's objects, where a number is one of them: the text of an
      object parses back to it, integers made canonical, exactly when no object
      in it has a member __num beside others. */
  lemma BuiltRoundTripIff(v: JVal)
    requires Serializable(v)
    ensures Parse(Serialize(v)).Success?
    ensures Built(Parse(Serialize(v)).value) == BuiltNormal(v) <==> NumAlone(v)
  {
    ParseSerialize(v);
    ReadIsBuiltIff(v);
  }

  /** {"__num":"1"} and 1 have the same canonical form. */
  lemma NumKeyCollides()
    ensures var v, w := JObj(map[NUM := JStr([0x31])]), JNum([0x31]);
            v != w && Serializable(v) && Serializable(w) && Serialize(v) == Serialize(w)
  {
    assert NUM[2] == 0x6E && PROTO[2] == 0x70;
    assert Magnitude([0x31]) == [0x31];
  }

  // --- The bytes the issuer signed -------------------------------------------------------------

  /** "proof" */
  const PROOF: Str := [0x70, 0x72, 0x6F, 0x6F, 0x66]

  ghost function WithoutProof(v: JVal): JVal
    requires v.JObj?
  {
    JObj(v.members - {PROOF})
  }

  /** Everything but the proofs of two credentials reads the same: their numbers
      if both look like one, or else each of their other members. */
  ghost predicate SameSigned(v: JVal, w: JVal)
    requires v.JObj? && w.JObj? && Serializable(v) && Serializable(w)
  {
    if NUM in v.members || NUM in w.members then
      && NUM in v.members && NUM in w.members
      && CanonInt(v.members[NUM].text) == CanonInt(w.members[NUM].text)
    else
      forall k :: k != PROOF ==>
        (k in v.members <==> k in w.members) && (k in v.members ==> Read(v.members[k]) == Read(w.members[k]))
  }

  lemma SameMembersRead(v: JVal, w: JVal)
    requires v.JObj? && w.JObj? && Serializable(v) && Serializable(w) && NUM !in v.members && NUM !in w.members
    requires Serializable(WithoutProof(v)) && Serializable(WithoutProof(w))
    ensures Read(WithoutProof(v)) == Read(WithoutProof(w)) <==> SameSigned(v, w)
  {
    var a, b := WithoutProof(v), WithoutProof(w);
    assert forall k :: k in Read(a).members <==> k in v.members && k != PROOF;
    assert forall k :: k in Read(b).members <==> k in w.members && k != PROOF;
    if SameSigned(v, w) {
      assert Read(a).members == Read(b).members;
    } else {
      var k :| k != PROOF
        && !((k in v.members <==> k in w.members) && (k in v.members ==> Read(v.members[k]) == Read(w.members[k])));
      assert k in v.members && k in w.members ==> Read(a).members[k] != Read(b).members[k];
    }
  }

  /** The signed bytes of two credentials are equal exactly when everything but
      their proofs reads the same. */
  lemma SignedBytesIff(v: JVal, w: JVal)
    requires v.JObj? && w.JObj? && Serializable(v) && Serializable(w)
    ensures Serializable(WithoutProof(v)) && Serializable(WithoutProof(w))
    ensures Serialize(WithoutProof(v)) == Serialize(WithoutProof(w)) <==> SameSigned(v, w)
  {
    var a, b := WithoutProof(v), WithoutProof(w);
    assert NUM != PROOF by {
      assert |NUM| != |PROOF| || NUM[0] != PROOF[0];
    }
    SerializeInjective(a, b);
    if NUM !in v.members && NUM !in w.members {
      SameMembersRead(v, w);
    }
  }
}
