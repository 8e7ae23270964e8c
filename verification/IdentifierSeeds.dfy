/** Per-identifier nullifier seeds (src/server/identifier.go): the seed of a
    verified document, phone or inbox, created once and shared by every session
    that proves the same identifier, however many race. */
module IdentifierSeeds {
  import opened Wrappers
  import opened Strings

  type Kind = string
  type Key = string
  type Seed = string

  // --- Which identifier wins ---------------------------------------------------

  function KindOrder(kind: Kind): Option<nat> {
    if kind == "document" then Some(0)
    else if kind == "phone" then Some(1)
    else if kind == "email" then Some(2)
    else None
  }

  /** The comparator handed to sort.Slice. */
  predicate Before(a: Kind, b: Kind) {
    match (KindOrder(a), KindOrder(b))
    case (Some(i), Some(j)) => if i != j then i < j else Less(a, b)
    case (Some(_), None) => true
    case (None, Some(_)) => false
    case (None, None) => Less(a, b)
  }

  lemma BeforeTotal(a: Kind, b: Kind)
    ensures a == b <==> !Before(a, b) && !Before(b, a)
    ensures !(Before(a, b) && Before(b, a))
  {
    LessTotal(a, b);
  }

  lemma BeforeTransitive(a: Kind, b: Kind, c: Kind)
    requires Before(a, b) && Before(b, c)
    ensures Before(a, c)
  {
    if Less(a, b) && Less(b, c) {
      LessTransitive(a, b, c);
    }
  }

  ghost predicate ByPriority(kinds: seq<Kind>) {
    forall i, j :: 0 <= i < j < |kinds| ==> Before(kinds[i], kinds[j])
  }

  /** sort.Slice on the keys of a map, as insertion in whatever order the map yields them. */
  method SortKinds(ks: set<Kind>) returns (kinds: seq<Kind>)
    ensures ByPriority(kinds) && forall k :: k in kinds <==> k in ks
  {
    kinds := [];
    var todo := ks;
    while todo != {}
      invariant todo <= ks && ByPriority(kinds) && forall k :: k in kinds <==> k in ks - todo
      decreases todo
    {
      var k :| k in todo;
      var i := 0;
      while i < |kinds| && Before(kinds[i], k)
        invariant i <= |kinds| && forall j :: 0 <= j < i ==> Before(kinds[j], k)
      {
        i := i + 1;
      }
      forall j | i <= j < |kinds|
        ensures Before(k, kinds[j])
      {
        BeforeTotal(k, kinds[i]);
        assert kinds[i] in kinds;
        if i < j {
          BeforeTransitive(k, kinds[i], kinds[j]);
        }
      }
      ghost var was := kinds;
      kinds := kinds[..i] + [k] + kinds[i..];
      assert forall x :: x in kinds <==> x in was || x == k;
      todo := todo - {k};
    }
  }

  lemma SameEmptiness(a: seq<Kind>, b: seq<Kind>)
    requires forall k :: k in a <==> k in b
    ensures a == [] <==> b == []
  {
    if a != [] {
      assert a[0] in a;
    }
    if b != [] {
      assert b[0] in b;
    }
  }

  /** The priority order of a set of kinds is unique, so "the first kind" is well defined. */
  lemma {:induction false} PriorityUnique(a: seq<Kind>, b: seq<Kind>)
    requires ByPriority(a) && ByPriority(b) && forall k :: k in a <==> k in b
    ensures a == b
  {
    SameEmptiness(a, b);
    if a != [] {
      assert a[0] in b;
      assert b[0] in a;
      BeforeTotal(a[0], b[0]);
      forall k
        ensures k in a[1..] <==> k in b[1..]
      {
        BeforeTotal(a[0], a[0]);
        assert k in a <==> k == a[0] || k in a[1..];
        assert k in b <==> k == b[0] || k in b[1..];
      }
      PriorityUnique(a[1..], b[1..]);
    }
  }

  /** ordered lists the keys of a session's identifiers, highest priority first. */
  ghost predicate Prioritized(keys: map<Kind, Key>, kinds: seq<Kind>, ordered: seq<Key>) {
    && ByPriority(kinds) && (forall k :: k in kinds <==> k in keys)
    && |ordered| == |kinds| && forall i :: 0 <= i < |kinds| ==> kinds[i] in keys && ordered[i] == keys[kinds[i]]
  }

  /** kind is the one of the session's kinds that wins over all its others. */
  ghost predicate Top(keys: map<Kind, Key>, kind: Kind) {
    kind in keys && forall k :: k in keys && k != kind ==> Before(kind, k)
  }

  /** The first key listed is the one of the top kind, and there is no other top kind. */
  lemma TopIsFirst(keys: map<Kind, Key>, kinds: seq<Kind>, ordered: seq<Key>)
    requires Prioritized(keys, kinds, ordered) && keys != map[]
    ensures ordered != [] && Top(keys, kinds[0]) && ordered[0] == keys[kinds[0]]
    ensures forall k :: Top(keys, k) <==> k == kinds[0]
  {
    var some :| some in keys;
    assert some in kinds;
    forall k | k in keys && k != kinds[0]
      ensures Before(kinds[0], k)
    {
      assert k in kinds;
    }
    forall k | Top(keys, k)
      ensures k == kinds[0]
    {
      BeforeTotal(kinds[0], k);
    }
  }

  /** The list depends on the identifiers alone, not on the order the map yields them in. */
  lemma PrioritizedUnique(keys: map<Kind, Key>, kinds: seq<Kind>, ordered: seq<Key>, kinds': seq<Kind>,
                          ordered': seq<Key>)
    requires Prioritized(keys, kinds, ordered) && Prioritized(keys, kinds', ordered')
    ensures kinds == kinds' && ordered == ordered'
  {
    PriorityUnique(kinds, kinds');
  }

  // --- One call, run alone -----------------------------------------------------

  /** The seed of the first key that has one. */
  function FirstBound(seeds: map<Key, Seed>, keys: seq<Key>): Option<Seed> {
    if keys == [] then None
    else if keys[0] in seeds then Some(seeds[keys[0]])
    else FirstBound(seeds, keys[1..])
  }

  /** Binds seed to those of keys that have none. */
  function BindAll(seeds: map<Key, Seed>, keys: seq<Key>, seed: Seed): map<Key, Seed>
    decreases |keys|
  {
    if keys == [] then seeds
    else BindAll(if keys[0] in seeds then seeds else seeds[keys[0] := seed], keys[1..], seed)
  }

  function ChosenSeed(seeds: map<Key, Seed>, keys: seq<Key>, fresh_: Seed): Seed {
    match FirstBound(seeds, keys) case Some(s) => s case None => fresh_
  }

  class InMemoryIdentifierStore {
    var seeds: map<Key, Seed>

    method Lookup(key: Key) returns (r: Option<Seed>)
      ensures r == if key in seeds then Some(seeds[key]) else None
    {
      r := if key in seeds then Some(seeds[key]) else None;
    }

    method GetOrCreate(key: Key, seed: Seed) returns (got: Seed)
      modifies this
      ensures seeds == if key in old(seeds) then old(seeds) else old(seeds)[key := seed]
      ensures key in seeds && got == seeds[key]
    {
      if key in seeds {
        return seeds[key];
      }
      seeds := seeds[key := seed];
      got := seed;
    }
  }

  /** The lookup loop: the first key that has a seed decides. */
  method LookUp(store: InMemoryIdentifierStore, ordered: seq<Key>) returns (seed: Seed)
    requires forall k :: k in store.seeds ==> store.seeds[k] != ""
    ensures match FirstBound(store.seeds, ordered) case Some(s) => seed == s && s != "" case None => seed == ""
  {
    seed := "";
    for i := 0 to |ordered|
      invariant seed == "" && FirstBound(store.seeds, ordered) == FirstBound(store.seeds, ordered[i..])
    {
      var existing := store.Lookup(ordered[i]);
      if existing.Some? {
        seed := existing.value;
        break;
      }
    }
  }

  /** The binding loop: the first key's binding, whoever made it, is adopted. */
  method BindKeys(store: InMemoryIdentifierStore, ordered: seq<Key>, chosen: Seed) returns (seed: Seed)
    requires ordered != [] && (ordered[0] in store.seeds ==> store.seeds[ordered[0]] == chosen)
    modifies store
    ensures store.seeds == BindAll(old(store.seeds), ordered, chosen)
    ensures ordered[0] in store.seeds && seed == store.seeds[ordered[0]]
  {
    seed := chosen;
    ghost var was := store.seeds;
    for i := 0 to |ordered|
      invariant BindAll(was, ordered, chosen) == BindAll(store.seeds, ordered[i..], chosen)
      invariant seed == chosen && (i == 0 ==> store.seeds == was)
      invariant i > 0 ==> ordered[0] in store.seeds && store.seeds[ordered[0]] == chosen
    {
      var got := store.GetOrCreate(ordered[i], seed);
      if i == 0 {
        seed := got;
      }
    }
  }

  /** resolveIdentifierSeed with nobody else at work; drawn is the seed the
      random source would deliver, and None is the "no identifier keys" error. */
  method ResolveIdentifierSeed(store: InMemoryIdentifierStore, keys: map<Kind, Key>, drawn: Seed)
    returns (r: Option<Seed>, ghost kinds: seq<Kind>, ghost ordered: seq<Key>)
    requires drawn != "" && forall k :: k in store.seeds ==> store.seeds[k] != ""
    modifies store
    ensures r.None? <==> keys == map[]
    ensures keys == map[] ==> store.seeds == old(store.seeds)
    ensures Prioritized(keys, kinds, ordered)
    ensures keys != map[] ==>
      && store.seeds == BindAll(old(store.seeds), ordered, ChosenSeed(old(store.seeds), ordered, drawn))
      && (forall kind :: Top(keys, kind) ==> keys[kind] in store.seeds && r == Some(store.seeds[keys[kind]]))
      && (forall k :: k in ordered <==> k in keys.Values)
  {
    var sorted := SortKinds(keys.Keys);
    kinds := sorted;
    if |sorted| == 0 {
      assert keys.Keys == {};
      ordered := [];
      return None, kinds, ordered;
    }
    var list := seq(|sorted|, i requires 0 <= i < |sorted| => (assert sorted[i] in sorted; keys[sorted[i]]));
    ordered := list;
    assert sorted[0] in sorted;
    OrderedValues(keys, sorted, list);
    TopIsFirst(keys, sorted, list);
    var seed := LookUp(store, list);
    if seed == "" {
      seed := drawn;
    }
    seed := BindKeys(store, list, seed);
    r := Some(seed);
  }

  lemma OrderedValues(keys: map<Kind, Key>, kinds: seq<Kind>, ordered: seq<Key>)
    requires forall k :: k in kinds <==> k in keys.Keys
    requires |ordered| == |kinds| && forall i :: 0 <= i < |kinds| ==> kinds[i] in keys && ordered[i] == keys[kinds[i]]
    ensures forall k :: k in ordered <==> k in keys.Values
  {
    forall k | k in keys.Values
      ensures k in ordered
    {
      var kind :| kind in keys && keys[kind] == k;
      assert kind in kinds;
      var i :| 0 <= i < |kinds| && kinds[i] == kind;
      assert ordered[i] == k;
    }
  }

  /** What a lone call leaves behind: every key bound, no binding changed, and
      new bindings to one seed, which is a fresh one only if no key had any. */
  lemma {:induction false} BindAllEffect(seeds: map<Key, Seed>, keys: seq<Key>, seed: Seed)
    ensures var after := BindAll(seeds, keys, seed);
            && after.Keys == seeds.Keys + (set k | k in keys)
            && forall k :: k in after ==> after[k] == if k in seeds then seeds[k] else seed
    decreases |keys|
  {
    if keys != [] {
      BindAllEffect(if keys[0] in seeds then seeds else seeds[keys[0] := seed], keys[1..], seed);
      assert forall k :: k in keys <==> k == keys[0] || k in keys[1..];
    }
  }

  lemma {:induction false} FirstBoundExists(seeds: map<Key, Seed>, keys: seq<Key>)
    ensures FirstBound(seeds, keys).Some? <==> exists k :: k in keys && k in seeds
    ensures FirstBound(seeds, keys).Some? ==> FirstBound(seeds, keys).value in seeds.Values
    decreases |keys|
  {
    if keys != [] && keys[0] !in seeds {
      FirstBoundExists(seeds, keys[1..]);
      assert forall k :: k in keys <==> k == keys[0] || k in keys[1..];
    } else if keys != [] {
      assert keys[0] in keys && keys[0] in seeds;
    }
  }

  /** Run alone, a call with any key already bound adds no fresh seed, changes
      no binding and leaves all its keys bound. */
  lemma LoneCallReuses(seeds: map<Key, Seed>, keys: seq<Key>, drawn: Seed)
    requires exists k :: k in keys && k in seeds
    ensures var after := BindAll(seeds, keys, ChosenSeed(seeds, keys, drawn));
            && after.Values == seeds.Values
            && (forall k :: k in seeds ==> k in after && after[k] == seeds[k])
            && (forall k :: k in keys ==> k in after)
  {
    var chosen := ChosenSeed(seeds, keys, drawn);
    var after := BindAll(seeds, keys, chosen);
    FirstBoundExists(seeds, keys);
    BindAllEffect(seeds, keys, chosen);
    forall v | v in seeds.Values
      ensures v in after.Values
    {
      var k :| k in seeds && seeds[k] == v;
      assert k in after;
    }
  }

  // --- Calls interleaved at store operations -----------------------------------

  /** Where a call is: looking keys up, creating binding i, re-reading binding i
      after losing its create, or finished. */
  datatype Pc = Look(i: nat) | Create(i: nat, seed: Seed) | Reread(i: nat, seed: Seed) | Done(seed: Seed)

  /** A call: the session's identifiers, their kinds and keys in priority order,
      and the seed it draws if it needs one. */
  datatype Call = Call(identifiers: map<Kind, Key>, kinds: seq<Kind>, keys: seq<Key>, drawn: Seed, pc: Pc)

  /** One call, at two moments. */
  predicate SameCall(c: Call, d: Call) {
    c.identifiers == d.identifiers && c.kinds == d.kinds && c.keys == d.keys && c.drawn == d.drawn
  }

  datatype System = System(seeds: map<Key, Seed>, calls: seq<Call>)

  /** One store operation of one call. Seeds are never deleted, so a re-read
      after a lost create always finds one. */
  function StepCall(seeds: map<Key, Seed>, c: Call): (map<Key, Seed>, Call) {
    match c.pc
    case Look(i) =>
      if i >= |c.keys| then (seeds, c.(pc := Create(0, c.drawn)))
      else if c.keys[i] in seeds then (seeds, c.(pc := Create(0, seeds[c.keys[i]])))
      else (seeds, c.(pc := Look(i + 1)))
    case Create(i, seed) =>
      if i >= |c.keys| then (seeds, c.(pc := Done(seed)))
      else if c.keys[i] in seeds then (seeds, c.(pc := Reread(i, seed)))
      else (seeds[c.keys[i] := seed], c.(pc := Create(i + 1, seed)))
    case Reread(i, seed) =>
      if i < |c.keys| && c.keys[i] in seeds
      then (seeds, c.(pc := Create(i + 1, if i == 0 then seeds[c.keys[0]] else seed)))
      else (seeds, c)
    case Done(_) => (seeds, c)
  }

  /** The call at index t takes a step; an index out of range is an idle tick. */
  function Step(s: System, t: nat): (r: System)
    ensures |r.calls| == |s.calls|
  {
    if t >= |s.calls| then s
    else
      var (seeds, c) := StepCall(s.seeds, s.calls[t]);
      System(seeds, s.calls[t := c])
  }

  function Run(s: System, schedule: seq<nat>): (r: System)
    ensures |r.calls| == |s.calls|
    decreases |schedule|
  {
    if schedule == [] then s else Run(Step(s, schedule[0]), schedule[1..])
  }

  /** A call past its first binding carries the seed its first key is bound to. */
  ghost predicate Adopted(seeds: map<Key, Seed>, c: Call) {
    && c.keys != []
    && match c.pc
       case Look(i) => true
       case Create(i, seed) => i > 0 ==> c.keys[0] in seeds && seeds[c.keys[0]] == seed
       case Reread(i, seed) =>
         i < |c.keys| && c.keys[i] in seeds && (i > 0 ==> c.keys[0] in seeds && seeds[c.keys[0]] == seed)
       case Done(seed) => c.keys[0] in seeds && seeds[c.keys[0]] == seed
  }

  ghost predicate Inv(s: System) {
    forall t :: 0 <= t < |s.calls| ==> Adopted(s.seeds, s.calls[t])
  }

  ghost predicate Extends(before: map<Key, Seed>, after: map<Key, Seed>) {
    forall k :: k in before ==> k in after && after[k] == before[k]
  }

  lemma StepKeepsInv(s: System, t: nat)
    requires Inv(s)
    ensures Inv(Step(s, t)) && Extends(s.seeds, Step(s, t).seeds)
    ensures |Step(s, t).calls| == |s.calls|
    ensures forall u :: 0 <= u < |s.calls| ==> SameCall(Step(s, t).calls[u], s.calls[u])
  {
    if t < |s.calls| {
      assert Adopted(s.seeds, s.calls[t]);
      var (seeds, c) := StepCall(s.seeds, s.calls[t]);
      assert Adopted(seeds, c);
      forall u | 0 <= u < |s.calls| && u != t
        ensures Adopted(seeds, s.calls[u])
      {
        assert Adopted(s.seeds, s.calls[u]);
      }
    }
  }

  lemma {:induction false} RunKeepsInv(s: System, schedule: seq<nat>)
    requires Inv(s)
    ensures Inv(Run(s, schedule)) && Extends(s.seeds, Run(s, schedule).seeds)
    ensures |Run(s, schedule).calls| == |s.calls|
    ensures forall u :: 0 <= u < |s.calls| ==> SameCall(Run(s, schedule).calls[u], s.calls[u])
    decreases |schedule|
  {
    if schedule != [] {
      StepKeepsInv(s, schedule[0]);
      RunKeepsInv(Step(s, schedule[0]), schedule[1..]);
    }
  }

  /** No call has begun, and each goes through its identifiers in priority order. */
  ghost predicate Starting(s: System) {
    forall t :: 0 <= t < |s.calls| ==> NewCall(s.calls[t])
  }

  ghost predicate NewCall(c: Call) {
    c.identifiers != map[] && Prioritized(c.identifiers, c.kinds, c.keys) && c.pc == Look(0)
  }

  lemma StartingInv(s: System)
    requires Starting(s)
    ensures Inv(s)
  {
    forall t | 0 <= t < |s.calls|
      ensures Adopted(s.seeds, s.calls[t])
    {
      var c := s.calls[t];
      assert NewCall(c);
      TopIsFirst(c.identifiers, c.kinds, c.keys);
    }
  }

  /** Under every interleaving, a call that has returned returned the seed that
      the key of its highest-priority identifier is bound to, then and in every
      later state. */
  lemma ReturnsItsBinding(s: System, schedule: seq<nat>, later: seq<nat>, t: nat, kind: Kind)
    requires Starting(s) && t < |s.calls| && Top(s.calls[t].identifiers, kind)
    requires Run(s, schedule).calls[t].pc.Done?
    ensures var seed := Run(s, schedule).calls[t].pc.seed;
            var end := Run(Run(s, schedule), later);
            s.calls[t].identifiers[kind] in end.seeds && end.seeds[s.calls[t].identifiers[kind]] == seed
  {
    var c := s.calls[t];
    assert NewCall(c);
    TopIsFirst(c.identifiers, c.kinds, c.keys);
    StartingInv(s);
    RunKeepsInv(s, schedule);
    assert Adopted(Run(s, schedule).seeds, Run(s, schedule).calls[t]);
    RunKeepsInv(Run(s, schedule), later);
  }

  /** So two sessions whose highest-priority identifiers have one key get the same seed. */
  lemma SharersAgree(s: System, schedule: seq<nat>, t: nat, kindT: Kind, u: nat, kindU: Kind)
    requires Starting(s) && t < |s.calls| && u < |s.calls|
    requires Top(s.calls[t].identifiers, kindT) && Top(s.calls[u].identifiers, kindU)
    requires s.calls[t].identifiers[kindT] == s.calls[u].identifiers[kindU]
    requires Run(s, schedule).calls[t].pc.Done? && Run(s, schedule).calls[u].pc.Done?
    ensures Run(s, schedule).calls[t].pc.seed == Run(s, schedule).calls[u].pc.seed
  {
    ReturnsItsBinding(s, schedule, [], t, kindT);
    ReturnsItsBinding(s, schedule, [], u, kindU);
  }

  // --- The step machine run alone is the sequential call -----------------------

  /** How many operations a call may still take. */
  function Remaining(c: Call): nat {
    match c.pc
    case Look(i) => (if i < |c.keys| then |c.keys| - i else 0) + 2 * |c.keys| + 2
    case Create(i, _) => (if i < |c.keys| then 2 * (|c.keys| - i) else 0) + 1
    case Reread(i, _) => if i < |c.keys| then 2 * (|c.keys| - i) else 0
    case Done(_) => 0
  }

  function Finish(seeds: map<Key, Seed>, c: Call): (map<Key, Seed>, Call)
    decreases Remaining(c)
  {
    var (seeds', c') := StepCall(seeds, c);
    if Remaining(c') < Remaining(c) then Finish(seeds', c') else (seeds, c)
  }

  lemma {:induction false} FinishBinding(seeds: map<Key, Seed>, c: Call)
    requires c.keys != [] && c.pc.Create? && c.pc.i <= |c.keys|
    requires c.keys[0] in seeds ==> seeds[c.keys[0]] == c.pc.seed
    requires c.pc.i > 0 ==> c.keys[0] in seeds
    ensures Finish(seeds, c) == (BindAll(seeds, c.keys[c.pc.i..], c.pc.seed), c.(pc := Done(c.pc.seed)))
    decreases |c.keys| - c.pc.i
  {
    var i, seed := c.pc.i, c.pc.seed;
    if i < |c.keys| {
      var bound := if c.keys[i] in seeds then seeds else seeds[c.keys[i] := seed];
      var next := c.(pc := Create(i + 1, seed));
      FinishBinding(bound, next);
      assert c.keys[i..][1..] == c.keys[i + 1..];
      if c.keys[i] in seeds {
        assert Finish(seeds, c) == Finish(seeds, c.(pc := Reread(i, seed))) == Finish(seeds, next);
      }
    } else {
      assert StepCall(seeds, c) == (seeds, c.(pc := Done(seed)));
      assert Finish(seeds, c.(pc := Done(seed))) == (seeds, c.(pc := Done(seed)));
    }
  }

  lemma {:induction false} FinishLooking(seeds: map<Key, Seed>, c: Call, drawn: Seed)
    requires c.keys != [] && c.pc.Look? && c.pc.i <= |c.keys| && drawn == c.drawn
    requires c.pc.i > 0 ==> c.keys[0] !in seeds
    ensures var chosen := ChosenSeed(seeds, c.keys[c.pc.i..], drawn);
            Finish(seeds, c) == (BindAll(seeds, c.keys, chosen), c.(pc := Done(chosen)))
    decreases |c.keys| - c.pc.i
  {
    var i := c.pc.i;
    var rest := c.keys[i..];
    if i < |c.keys| && c.keys[i] !in seeds {
      FinishLooking(seeds, c.(pc := Look(i + 1)), drawn);
      assert rest[1..] == c.keys[i + 1..];
      assert Finish(seeds, c) == Finish(seeds, c.(pc := Look(i + 1)));
    } else {
      var chosen := ChosenSeed(seeds, rest, drawn);
      assert StepCall(seeds, c) == (seeds, c.(pc := Create(0, chosen)));
      FinishBinding(seeds, c.(pc := Create(0, chosen)));
      assert c.keys[0..] == c.keys;
    }
  }

  /** A call that nobody interleaves with computes what the sequential code does. */
  lemma AloneIsSequential(seeds: map<Key, Seed>, c: Call)
    requires NewCall(c)
    ensures var chosen := ChosenSeed(seeds, c.keys, c.drawn);
            Finish(seeds, c) == (BindAll(seeds, c.keys, chosen), c.(pc := Done(chosen)))
  {
    TopIsFirst(c.identifiers, c.kinds, c.keys);
    FinishLooking(seeds, c, c.drawn);
    assert c.keys[0..] == c.keys;
  }

  // --- Who wins, and with what -----------------------------------------------------

  /** A document wins over a phone, a phone over an e-mail address, and these three
      over any other kind, of which the first by name wins. */
  lemma TopIs(keys: map<Kind, Key>, kind: Kind)
    ensures Top(keys, kind) <==>
      && kind in keys
      && if "document" in keys then kind == "document"
         else if "phone" in keys then kind == "phone"
         else if "email" in keys then kind == "email"
         else forall k :: k in keys && k != kind ==> Less(kind, k)
  {
    if kind in keys {
      forall k | k in keys && k != kind
        ensures Before(kind, k) <==> !Before(k, kind)
      {
        BeforeTotal(kind, k);
      }
      if Top(keys, kind) {
        assert "document" in keys && kind != "document" ==> Before(kind, "document");
        assert "phone" in keys && kind != "phone" ==> Before(kind, "phone");
        assert "email" in keys && kind != "email" ==> Before(kind, "email");
      }
    }
  }

  /** kind is the one of the session's bound kinds that wins over all its other bound kinds. */
  ghost predicate TopBound(seeds: map<Key, Seed>, keys: map<Kind, Key>, kind: Kind) {
    && kind in keys && keys[kind] in seeds
    && forall k :: k in keys && k != kind && keys[k] in seeds ==> Before(kind, k)
  }

  lemma {:induction false} FirstBoundIs(seeds: map<Key, Seed>, keys: map<Kind, Key>, kinds: seq<Kind>,
                                        ordered: seq<Key>, i: nat)
    requires |ordered| == |kinds| && i < |kinds|
    requires forall j :: 0 <= j < |kinds| ==> kinds[j] in keys && ordered[j] == keys[kinds[j]]
    requires ordered[i] in seeds && forall j :: 0 <= j < i ==> ordered[j] !in seeds
    ensures FirstBound(seeds, ordered) == Some(seeds[ordered[i]])
    decreases i
  {
    if i > 0 {
      FirstBoundIs(seeds, keys, kinds[1..], ordered[1..], i - 1);
    }
  }

  /** A call run alone binds every unbound key of the session to one seed: that of
      its highest-priority bound kind, or the one drawn if no kind is bound. */
  lemma LoneCallIs(seeds: map<Key, Seed>, keys: map<Kind, Key>, kinds: seq<Kind>, ordered: seq<Key>, drawn: Seed)
    requires Prioritized(keys, kinds, ordered)
    ensures var after := BindAll(seeds, ordered, ChosenSeed(seeds, ordered, drawn));
            && (forall k :: k in after <==> k in seeds || k in keys.Values)
            && (forall k :: k in seeds ==> after[k] == seeds[k])
            && (forall kind, k :: TopBound(seeds, keys, kind) && k in keys.Values && k !in seeds ==>
                  after[k] == seeds[keys[kind]])
            && ((forall kind :: kind in keys ==> keys[kind] !in seeds) ==> forall k :: k in keys.Values ==>
                 after[k] == drawn)
  {
    var chosen := ChosenSeed(seeds, ordered, drawn);
    BindAllEffect(seeds, ordered, chosen);
    OrderedValues(keys, kinds, ordered);
    FirstBoundExists(seeds, ordered);
    forall kind | TopBound(seeds, keys, kind)
      ensures chosen == seeds[keys[kind]]
    {
      assert kind in kinds;
      var i :| 0 <= i < |kinds| && kinds[i] == kind;
      forall j | 0 <= j < i
        ensures ordered[j] !in seeds
      {
        BeforeTotal(kinds[j], kind);
        assert kinds[j] in keys;
      }
      FirstBoundIs(seeds, keys, kinds, ordered, i);
    }
  }
}
