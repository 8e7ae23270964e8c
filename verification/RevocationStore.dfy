/** Status-list slots: who owns which, and which are revoked
    (src/server/revocation.go), in memory and behind the cached Firestore list. */
module RevocationStore {
  import opened Wrappers

  type CredentialId = string
  type Time = int

  const STATUS_LIST_SIZE: nat := 131_072
  const MAX_ALLOCATE_ATTEMPTS: nat := 16
  const REVOKED_CACHE_TTL: Time := 30_000_000_000

  /** The bookkeeping every backend keeps. */
  datatype Slots = Slots(used: set<nat>, byCred: map<CredentialId, nat>, revoked: set<nat>)

  /** The first drawn slot that nobody has claimed. draws lists what the random
      source would deliver, one entry per attempt. */
  function FirstFree(used: set<nat>, draws: seq<nat>): Option<nat> {
    if draws == [] then None
    else if draws[0] !in used then Some(draws[0])
    else FirstFree(used, draws[1..])
  }

  ghost predicate Draws(draws: seq<nat>) {
    |draws| == 16 && forall i :: 0 <= i < |draws| ==> draws[i] < 131_072
  }

  function RevokeSlot(s: Slots, cred: CredentialId): Slots {
    if cred in s.byCred then s.(revoked := s.revoked + {s.byCred[cred]}) else s
  }

  lemma {:induction false} FirstFreeIsFree(used: set<nat>, draws: seq<nat>)
    ensures match FirstFree(used, draws)
            case Some(i) => i in draws && i !in used
            case None => forall i :: i in draws ==> i in used
  {
    if draws != [] && draws[0] in used {
      FirstFreeIsFree(used, draws[1..]);
      assert forall i :: i in draws <==> i == draws[0] || i in draws[1..];
    }
  }

  // --- Sorting -----------------------------------------------------------------

  ghost predicate Ascending(s: seq<nat>) {
    forall i, j :: 0 <= i < j < |s| ==> s[i] < s[j]
  }

  ghost predicate Nondecreasing(s: seq<nat>) {
    forall i, j :: 0 <= i < j < |s| ==> s[i] <= s[j]
  }

  lemma Inserted(ys: seq<nat>, k: nat, x: nat)
    requires k <= |ys| && Nondecreasing(ys)
    requires (forall j :: 0 <= j < k ==> ys[j] <= x) && (k < |ys| ==> x < ys[k])
    ensures Nondecreasing(ys[..k] + [x] + ys[k..])
    ensures multiset(ys[..k] + [x] + ys[k..]) == multiset(ys) + multiset{x}
  {
    assert ys == ys[..k] + ys[k..];
  }

  /** sort.Ints, as insertion. */
  method SortInts(xs: seq<nat>) returns (ys: seq<nat>)
    ensures Nondecreasing(ys) && multiset(ys) == multiset(xs)
  {
    ys := [];
    for i := 0 to |xs|
      invariant Nondecreasing(ys) && multiset(ys) == multiset(xs[..i])
    {
      var k := 0;
      while k < |ys| && ys[k] <= xs[i]
        invariant k <= |ys| && forall j :: 0 <= j < k ==> ys[j] <= xs[i]
      {
        k := k + 1;
      }
      assert xs[..i + 1] == xs[..i] + [xs[i]];
      Inserted(ys, k, xs[i]);
      ys := ys[..k] + [xs[i]] + ys[k..];
    }
    assert xs[..|xs|] == xs;
  }

  /** Sorting a list without repetitions leaves it strictly ascending. */
  lemma DistinctSorted(ys: seq<nat>, xs: seq<nat>)
    requires Nondecreasing(ys) && multiset(ys) == multiset(xs)
    requires forall i, j :: 0 <= i < j < |xs| ==> xs[i] != xs[j]
    ensures Ascending(ys)
    ensures forall x :: x in ys <==> x in xs
  {
    forall x
      ensures x in ys <==> x in xs
    {
      assert x in ys <==> x in multiset(ys);
    }
    forall i, j | 0 <= i < j < |ys|
      ensures ys[i] < ys[j]
    {
      if ys[i] == ys[j] {
        TwoOccurrences(ys, i, j);
        OneOccurrence(xs, ys[i]);
      }
    }
  }

  lemma TwoOccurrences(ys: seq<nat>, i: nat, j: nat)
    requires i < j < |ys| && ys[i] == ys[j]
    ensures multiset(ys)[ys[i]] >= 2
  {
    assert ys == ys[..j] + [ys[j]] + ys[j + 1..];
    assert ys[i] in ys[..j];
  }

  lemma {:induction false} OneOccurrence(xs: seq<nat>, x: nat)
    requires forall i, j :: 0 <= i < j < |xs| ==> xs[i] != xs[j]
    ensures multiset(xs)[x] <= 1
  {
    if xs != [] {
      OneOccurrence(xs[1..], x);
      assert xs == [xs[0]] + xs[1..];
      assert x in multiset(xs[1..]) ==> x in xs[1..];
    }
  }

  // --- In memory ---------------------------------------------------------------

  class InMemoryRevocationStore {
    var used: set<nat>
    var byCred: map<CredentialId, nat>
    var revoked: set<nat>

    function View(): Slots
      reads this
    {
      Slots(used, byCred, revoked)
    }

    constructor ()
      ensures View() == Slots({}, map[], {})
    {
      used, byCred, revoked := {}, map[], {};
    }

    method Allocate(draws: seq<nat>) returns (slot: Option<nat>)
      requires Draws(draws)
      modifies this
      ensures slot == FirstFree(old(used), draws)
      ensures View() == old(View()).(used := old(used) + match slot case Some(i) => {i} case None => {})
    {
      for i := 0 to MAX_ALLOCATE_ATTEMPTS
        invariant View() == old(View())
        invariant FirstFree(used, draws) == FirstFree(used, draws[i..])
      {
        if draws[i] !in used {
          used := used + {draws[i]};
          return Some(draws[i]);
        }
      }
      return None;
    }

    method Bind(index: nat, cred: CredentialId)
      modifies this
      ensures View() == old(View()).(byCred := old(byCred)[cred := index])
    {
      byCred := byCred[cred := index];
    }

    /** None when the credential was never bound; else its slot and whether it was revoked before. */
    method Revoke(cred: CredentialId) returns (r: Option<(nat, bool)>)
      modifies this
      ensures View() == RevokeSlot(old(View()), cred)
      ensures r == if cred in old(byCred) then Some((old(byCred)[cred], old(byCred)[cred] in old(revoked))) else None
    {
      if cred !in byCred {
        return None;
      }
      var idx := byCred[cred];
      var already := idx in revoked;
      revoked := revoked + {idx};
      r := Some((idx, already));
    }

    /** The revoked slots in ascending order, whatever order the map yields them in. */
    method Revoked() returns (out: seq<nat>)
      ensures Ascending(out) && forall i :: i in out <==> i in revoked
    {
      var todo := revoked;
      var found: seq<nat> := [];
      while todo != {}
        invariant todo <= revoked
        invariant forall i :: i in found <==> i in revoked - todo
        invariant forall i, j :: 0 <= i < j < |found| ==> found[i] != found[j]
        decreases todo
      {
        var idx :| idx in todo;
        assert idx !in found;
        found := found + [idx];
        todo := todo - {idx};
      }
      out := SortInts(found);
      DistinctSorted(out, found);
    }
  }

  // --- Firestore ---------------------------------------------------------------

  /** Slot claims and bindings are documents; the revoked slots are one sorted
      list document, cached in the process. */
  class FirestoreRevocationStore {
    var slots: set<nat>
    var bindings: map<CredentialId, nat>
    var list: seq<nat>
    var cache: Option<seq<nat>>
    var cacheExpiry: Time

    /** The stored list is sorted without repetitions, and a cached copy equals it. */
    ghost predicate Valid()
      reads this
    {
      && Ascending(list)
      && (cache.Some? ==> cache.value == list)
    }

    ghost function View(): Slots
      reads this
    {
      Slots(slots, bindings, set i | i in list)
    }

    /** No documents yet, nothing cached. */
    constructor ()
      ensures Valid() && View() == Slots({}, map[], {})
    {
      slots, bindings, list, cache, cacheExpiry := {}, map[], [], None, 0;
    }

    /** The create-only claim of a slot document, sixteen draws at most. */
    method Allocate(draws: seq<nat>) returns (slot: Option<nat>)
      requires Valid() && Draws(draws)
      modifies this
      ensures Valid()
      ensures slot == FirstFree(old(slots), draws)
      ensures View() == old(View()).(used := old(slots) + match slot case Some(i) => {i} case None => {})
    {
      for i := 0 to MAX_ALLOCATE_ATTEMPTS
        invariant Valid() && View() == old(View())
        invariant FirstFree(slots, draws) == FirstFree(slots, draws[i..])
      {
        var created := draws[i] !in slots;
        if created {
          slots := slots + {draws[i]};
          return Some(draws[i]);
        }
      }
      return None;
    }

    method Bind(index: nat, cred: CredentialId)
      requires Valid()
      modifies this
      ensures Valid() && View() == old(View()).(byCred := old(bindings)[cred := index])
    {
      bindings := bindings[cred := index];
    }

    method Revoke(cred: CredentialId) returns (r: Option<(nat, bool)>)
      requires Valid()
      modifies this
      ensures Valid()
      ensures View() == RevokeSlot(old(View()), cred)
      ensures r == if cred in old(bindings) then Some((old(bindings)[cred], old(bindings)[cred] in old(list))) else None
    {
      if cred !in bindings {
        return None;
      }
      var index := bindings[cred];
      for k := 0 to |list|
        invariant index !in list[..k]
      {
        if list[k] == index {
          return Some((index, true));
        }
      }
      assert list[..|list|] == list;
      var extended := list + [index];
      var sorted := SortInts(extended);
      DistinctSorted(sorted, extended);
      assert forall x :: x in sorted <==> x in list || x == index;
      list := sorted;
      cache, cacheExpiry := None, 0;
      r := Some((index, false));
    }

    method Revoked(now: Time) returns (out: seq<nat>)
      requires Valid()
      modifies this
      ensures Valid() && View() == old(View())
      ensures out == list && Ascending(out)
    {
      if cache.Some? && now < cacheExpiry {
        return cache.value;
      }
      cache, cacheExpiry := Some(list), now + REVOKED_CACHE_TTL;
      out := list;
    }
  }
}
