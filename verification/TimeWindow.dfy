/** Timestamp lists that are pruned in place, as pruneSince in recovery.go and
    the compaction in sendlimit.go do: the kept entries are written over the
    slice that is being read. Times are integers (nanoseconds). */
module TimeWindow {
  type Time = int

  /** The entries strictly after since, in order. */
  function After(ts: seq<Time>, since: Time): seq<Time> {
    if ts == [] then []
    else if ts[|ts| - 1] > since then After(ts[..|ts| - 1], since) + [ts[|ts| - 1]]
    else After(ts[..|ts| - 1], since)
  }

  /** Compacts a[..n] to its entries after since, reading and writing the same
      buffer; the cells from the kept count on still hold what they held. */
  method CompactInPlace(a: array<Time>, n: nat, since: Time) returns (kept: nat)
    requires n <= a.Length
    modifies a
    ensures kept <= n
    ensures a[..kept] == After(old(a[..n]), since)
    ensures a[kept..] == old(a[kept..])
  {
    ghost var was := a[..];
    kept := 0;
    for i := 0 to n
      invariant kept <= i
      invariant a[..kept] == After(was[..i], since)
      invariant a[kept..] == was[kept..]
    {
      assert was[..i + 1][..i] == was[..i];
      assert a[i] == a[kept..][i - kept] == was[i];
      if a[i] > since {
        ghost var before := a[..];
        a[kept] := a[i];
        assert a[..kept] == before[..kept];
        assert a[..kept + 1] == a[..kept] + [was[i]];
        assert a[kept + 1..] == before[kept + 1..] == before[kept..][1..];
        kept := kept + 1;
      }
    }
    assert was[..n] == old(a[..n]);
  }

  lemma AfterSnoc(ts: seq<Time>, t: Time, since: Time)
    ensures After(ts + [t], since) == if t > since then After(ts, since) + [t] else After(ts, since)
  {
    assert (ts + [t])[..|ts|] == ts;
  }

  lemma {:induction false} AfterMember(ts: seq<Time>, since: Time, t: Time)
    ensures t in After(ts, since) <==> t in ts && t > since
  {
    if ts != [] {
      var k := |ts| - 1;
      assert ts == ts[..k] + [ts[k]];
      AfterMember(ts[..k], since, t);
    }
  }

  /** Pruning first at an earlier bound changes nothing. */
  lemma {:induction false} AfterAfter(ts: seq<Time>, w: Time, since: Time)
    requires w <= since
    ensures After(After(ts, w), since) == After(ts, since)
  {
    if ts != [] {
      var k := |ts| - 1;
      AfterAfter(ts[..k], w, since);
      if ts[k] > w {
        AfterSnoc(After(ts[..k], w), ts[k], since);
      }
    }
  }

  lemma {:induction false} AfterShorter(ts: seq<Time>, since: Time)
    ensures |After(ts, since)| <= |ts|
  {
    if ts != [] {
      AfterShorter(ts[..|ts| - 1], since);
    }
  }
}
