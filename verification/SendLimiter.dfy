/** The per-inbox send limiter of src/server/sendlimit.go: one timestamp list per
    key, compacted in place over the slice being read. Times are integers
    (nanoseconds); MINUTE and HOUR are in the same unit. */
module SendLimiter {
  import opened TimeWindow

  type Key = string

  type Sends = map<Key, seq<Time>>

  datatype Decision = Decision(ok: bool, wait: int)

  const MAX_BUCKETS: nat := 100_000
  const MINUTE: Time := 60_000_000_000
  const HOUR: Time := 60 * MINUTE

  // --- One call, on values --------------------------------------------------------

  function ListOf(sends: Sends, k: Key): seq<Time> {
    if k in sends then sends[k] else []
  }

  /** What the stored slice shows when its buffer was compacted but its length kept. */
  function Smeared(ts: seq<Time>, cutoff: Time): (r: seq<Time>)
    ensures |r| == |ts|
  {
    AfterShorter(ts, cutoff);
    After(ts, cutoff) + ts[|After(ts, cutoff)|..]
  }

  predicate Stale(ts: seq<Time>, cutoff: Time) {
    ts == [] || ts[|ts| - 1] <= cutoff
  }

  function Sweep(sends: Sends, cutoff: Time): Sends {
    map k | k in sends && !Stale(sends[k], cutoff) :: sends[k]
  }

  /** The map after the in-place compaction of k's list, its header unchanged. */
  function Compacted(sends: Sends, k: Key, cutoff: Time): Sends {
    if k in sends then sends[k := Smeared(sends[k], cutoff)] else sends
  }

  function Allow(perHour: nat, sends: Sends, k: Key, now: Time): (Sends, Decision)
    requires perHour >= 1
  {
    var cutoff := now - HOUR;
    Decide(perHour, Compacted(sends, k, cutoff), k, After(ListOf(sends, k), cutoff), now)
  }

  /** The rest of a call once k's list is compacted to recent. */
  function Decide(perHour: nat, sends: Sends, k: Key, recent: seq<Time>, now: Time): (Sends, Decision)
    requires perHour >= 1
  {
    if |recent| >= perHour then (sends[k := recent], Decision(false, recent[0] - (now - HOUR)))
    else if |sends| < MAX_BUCKETS then (sends[k := recent + [now]], Decision(true, 0))
    else DecideAtCap(sends, k, recent, now)
  }

  /** The call that found the map full: sweep, then record or refuse. */
  function DecideAtCap(sends: Sends, k: Key, recent: seq<Time>, now: Time): (Sends, Decision) {
    var swept := Sweep(sends, now - HOUR);
    if |swept| >= MAX_BUCKETS then (swept, Decision(false, MINUTE))
    else (swept[k := recent + [now]], Decision(true, 0))
  }

  /** This call is refused, but not because perHour sends were counted. */
  predicate CapRefuses(perHour: nat, sends: Sends, k: Key, now: Time)
    requires perHour >= 1
  {
    |After(ListOf(sends, k), now - HOUR)| < perHour && !Allow(perHour, sends, k, now).1.ok
  }

  // --- The imperative limiter -----------------------------------------------------

  /** A slice header: the first len cells of a buffer. */
  datatype Slice = Slice(buf: array<Time>, len: nat)

  lemma SameUpdate(m: Sends, n: Sends, k: Key, ts: seq<Time>)
    requires m - {k} == n - {k}
    ensures m[k := ts] == n[k := ts]
  {
    assert m[k := ts] == (m - {k})[k := ts];
    assert n[k := ts] == (n - {k})[k := ts];
  }

  lemma PrefixRejoins(a: seq<Time>, i: nat, n: nat)
    requires i <= n <= |a|
    ensures a[..n] == a[..i] + a[i..][..n - i]
  {}

  lemma SweepDrops(view: Sends, cutoff: Time, drop: set<Key>)
    requires forall k :: k in drop <==> k in view && Stale(view[k], cutoff)
    ensures view - drop == Sweep(view, cutoff)
  {}

  lemma DropOne(was: map<Key, Slice>, drop: set<Key>, todo: set<Key>, k: Key)
    requires k in todo && todo <= was.Keys
    ensures was - (drop - (todo - {k})) == was - (drop - todo) - (if k in drop then {k} else {})
  {
    assert drop - (todo - {k}) == (drop - todo) + (if k in drop then {k} else {});
  }

  class IdentifierSendLimiter {
    const perHour: nat
    var sends: map<Key, Slice>

    ghost function Bufs(): set<object>
      reads this
    {
      set k | k in sends :: sends[k].buf
    }

    /** No two keys share a buffer. */
    ghost predicate Valid()
      reads this
    {
      && perHour >= 1
      && (forall k :: k in sends ==> sends[k].len <= sends[k].buf.Length)
      && (forall k, l :: k in sends && l in sends && k != l ==> sends[k].buf != sends[l].buf)
    }

    ghost function View(): Sends
      requires Valid()
      reads this, Bufs()
    {
      map k | k in sends :: sends[k].buf[..sends[k].len]
    }

    constructor (perHour: nat)
      requires perHour >= 1
      ensures Valid() && this.perHour == perHour && View() == map[] && Bufs() == {}
    {
      this.perHour := perHour;
      sends := map[];
    }

    /** Deletes the keys whose slice is empty or ends in a stale entry; drop names them. */
    method DeleteStale(cutoff: Time, ghost drop: set<Key>)
      requires Valid()
      requires forall k :: k in sends ==> (k in drop <==> Stale(sends[k].buf[..sends[k].len], cutoff))
      modifies this
      ensures sends == old(sends) - drop
    {
      ghost var was := sends;
      var todo := sends.Keys;
      while todo != {}
        invariant todo <= was.Keys
        invariant sends == was - (drop - todo)
        decreases todo
      {
        var k :| k in todo;
        var ts := sends[k];
        assert Stale(ts.buf[..ts.len], cutoff) == (ts.len == 0 || ts.buf[ts.len - 1] <= cutoff);
        if ts.len == 0 || ts.buf[ts.len - 1] <= cutoff {
          sends := sends - {k};
        }
        DropOne(was, drop, todo, k);
        todo := todo - {k};
      }
      assert drop - todo == drop;
    }

    method SweepLocked(cutoff: Time)
      requires Valid()
      modifies this
      ensures Valid() && View() == Sweep(old(View()), cutoff)
      ensures forall k :: k in sends ==> k in old(sends) && sends[k] == old(sends)[k]
    {
      ghost var view := View();
      ghost var drop := set k | k in view && Stale(view[k], cutoff);
      DeleteStale(cutoff, drop);
      assert View() == view - drop;
      SweepDrops(view, cutoff, drop);
    }

    /** append: in place while there is room, else into a larger buffer. */
    method Append(s: Slice, t: Time) returns (r: Slice)
      requires s.len <= s.buf.Length
      modifies s.buf
      ensures r.len == s.len + 1 <= r.buf.Length
      ensures r.buf[..r.len] == old(s.buf[..s.len]) + [t]
      ensures r.buf == s.buf || fresh(r.buf)
    {
      if s.len < s.buf.Length {
        s.buf[s.len] := t;
        r := Slice(s.buf, s.len + 1);
      } else {
        var grown := new Time[2 * s.len + 1];
        forall i | 0 <= i < s.len {
          grown[i] := s.buf[i];
        }
        grown[s.len] := t;
        r := Slice(grown, s.len + 1);
      }
    }

    /** Compacts key's slice in place; its header in the map is left as it was. */
    method CompactLocked(key: Key, cutoff: Time) returns (recent: Slice)
      requires Valid()
      modifies Bufs()
      ensures View() == Compacted(old(View()), key, cutoff)
      ensures recent.len <= recent.buf.Length
      ensures recent.buf[..recent.len] == After(ListOf(old(View()), key), cutoff)
      ensures if key in sends then recent.buf == sends[key].buf else fresh(recent.buf)
    {
      ghost var view := View();
      if key !in sends {
        var empty := new Time[0];
        return Slice(empty, 0);
      }
      var ts := sends[key];
      assert view[key] == ts.buf[..ts.len];
      var kept := CompactInPlace(ts.buf, ts.len, cutoff);
      PrefixRejoins(ts.buf[..], kept, ts.len);
      assert ts.buf[..ts.len] == ts.buf[..kept] + ts.buf[kept..][..ts.len - kept];
      assert ts.buf[..ts.len] == Smeared(view[key], cutoff);
      recent := Slice(ts.buf, kept);
    }

    /** Stores s under key. */
    method Store(key: Key, s: Slice)
      requires Valid() && s.len <= s.buf.Length
      requires forall k :: k in sends && k != key ==> sends[k].buf != s.buf
      modifies this
      ensures Valid() && View() == old(View())[key := s.buf[..s.len]]
      ensures Bufs() <= old(Bufs()) + {s.buf}
    {
      sends := sends[key := s];
    }

    /** Appends now to recent and stores the result under key. */
    method Record(key: Key, recent: Slice, now: Time)
      requires Valid() && recent.len <= recent.buf.Length
      requires forall k :: k in sends && k != key ==> sends[k].buf != recent.buf
      modifies this, recent.buf
      ensures Valid() && fresh(Bufs() - old(Bufs()) - {recent.buf})
      ensures View() == old(View())[key := old(recent.buf[..recent.len]) + [now]]
    {
      ghost var view := View();
      var grown := Append(recent, now);
      ghost var grownView := View();
      assert grownView - {key} == view - {key};
      Store(key, grown);
      SameUpdate(grownView, view, key, grown.buf[..grown.len]);
    }

    method Admit(key: Key, now: Time) returns (ok: bool, wait: int)
      requires Valid()
      modifies this, Bufs()
      ensures Valid() && fresh(Bufs() - old(Bufs()))
      ensures (View(), Decision(ok, wait)) == Allow(perHour, old(View()), key, now)
    {
      var recent := CompactLocked(key, now - HOUR);
      ok, wait := DecideLocked(key, recent, now);
    }

    method DecideLocked(key: Key, recent: Slice, now: Time) returns (ok: bool, wait: int)
      requires Valid() && recent.len <= recent.buf.Length
      requires if key in sends then recent.buf == sends[key].buf else recent.buf !in Bufs()
      modifies this, recent.buf
      ensures Valid() && fresh(Bufs() - old(Bufs()) - {recent.buf})
      ensures (View(), Decision(ok, wait)) == Decide(perHour, old(View()), key, old(recent.buf[..recent.len]), now)
    {
      assert sends.Keys == View().Keys;
      if recent.len >= perHour {
        Store(key, recent);
        return false, recent.buf[0] - (now - HOUR);
      }
      if |sends| < MAX_BUCKETS {
        Record(key, recent, now);
        return true, 0;
      }
      ok, wait := SweepAndDecide(key, recent, now);
    }

    /** The call found the map full: sweep, then record or refuse. */
    method SweepAndDecide(key: Key, recent: Slice, now: Time) returns (ok: bool, wait: int)
      requires Valid() && recent.len <= recent.buf.Length
      requires if key in sends then recent.buf == sends[key].buf else recent.buf !in Bufs()
      modifies this, recent.buf
      ensures Valid() && fresh(Bufs() - old(Bufs()) - {recent.buf})
      ensures (View(), Decision(ok, wait)) == DecideAtCap(old(View()), key, old(recent.buf[..recent.len]), now)
    {
      SweepLocked(now - HOUR);
      assert sends.Keys == View().Keys;
      if |sends| >= MAX_BUCKETS {
        return false, MINUTE;
      }
      Record(key, recent, now);
      return true, 0;
    }
  }

  // --- Compaction, sweeping and what is counted afterwards ----------------------------

  /** The last entry is the newest, though the list need not be sorted. */
  ghost predicate NewestLast(ts: seq<Time>) {
    forall t :: t in ts ==> t <= ts[|ts| - 1]
  }

  lemma {:induction false} AfterConcat(a: seq<Time>, b: seq<Time>, c: Time)
    ensures After(a + b, c) == After(a, c) + After(b, c)
    decreases |b|
  {
    if b == [] {
      assert a + b == a;
    } else {
      var n := |b| - 1;
      assert (a + b)[..|a + b| - 1] == a + b[..n];
      AfterConcat(a, b[..n], c);
    }
  }

  lemma StaleCountsNothing(ts: seq<Time>, cutoff: Time, c: Time)
    requires NewestLast(ts) && Stale(ts, cutoff) && cutoff <= c
    ensures After(ts, c) == []
  {
    if After(ts, c) != [] {
      AfterMember(ts, c, After(ts, c)[0]);
      assert false;
    }
  }

  /** Dropping stale keys changes no count. */
  lemma SweepKeepsCounts(sends: Sends, cutoff: Time, k: Key, c: Time)
    requires NewestLast(ListOf(sends, k)) && cutoff <= c
    ensures After(ListOf(Sweep(sends, cutoff), k), c) == After(ListOf(sends, k), c)
  {
    if Stale(ListOf(sends, k), cutoff) {
      StaleCountsNothing(ListOf(sends, k), cutoff, c);
    }
  }

  /** What a compaction under the old header leaves: the kept entries, then
      whatever the tail still shows. */
  lemma SmearedCounts(ts: seq<Time>, cutoff: Time, c: Time)
    requires cutoff <= c
    ensures |After(ts, cutoff)| <= |ts|
    ensures After(Smeared(ts, cutoff), c) == After(ts, c) + After(ts[|After(ts, cutoff)|..], c)
  {
    AfterShorter(ts, cutoff);
    AfterConcat(After(ts, cutoff), ts[|After(ts, cutoff)|..], c);
    AfterAfter(ts, cutoff, c);
  }

  lemma AfterNewestLast(ts: seq<Time>, c: Time)
    requires NewestLast(ts)
    ensures NewestLast(After(ts, c))
    ensures After(ts, c) != [] ==> After(ts, c)[|After(ts, c)| - 1] == ts[|ts| - 1] > c
  {
    if After(ts, c) != [] {
      AfterMember(ts, c, After(ts, c)[0]);
      forall t | t in After(ts, c) ensures t <= ts[|ts| - 1] {
        AfterMember(ts, c, t);
      }
    }
  }

  lemma SmearedNewestLast(ts: seq<Time>, c: Time)
    requires NewestLast(ts)
    ensures NewestLast(Smeared(ts, c))
  {
    AfterShorter(ts, c);
    AfterNewestLast(ts, c);
    forall t | t in Smeared(ts, c) ensures ts != [] && t <= ts[|ts| - 1] {
      AfterMember(ts, c, t);
    }
  }

  /** A cap refusal that dropped some of k's entries and kept others. */
  predicate Smears(perHour: nat, sends: Sends, k: Key, now: Time)
    requires perHour >= 1
  {
    CapRefuses(perHour, sends, k, now) && 0 < |After(ListOf(sends, k), now - HOUR)| < |ListOf(sends, k)|
  }

  /** What a cap refusal leaves for its key: the smeared list, unless the sweep drops it. */
  lemma CapRefusalLeaves(perHour: nat, sends: Sends, k: Key, now: Time)
    requires perHour >= 1 && CapRefuses(perHour, sends, k, now)
    ensures var smeared := Smeared(ListOf(sends, k), now - HOUR);
            ListOf(Allow(perHour, sends, k, now).0, k) == if Stale(smeared, now - HOUR) then [] else smeared
  {}

  /** A cap refusal leaves its key over-counted exactly when its compaction
      dropped some entries and kept others. */
  lemma CapRefusalOvercountsIff(perHour: nat, sends: Sends, k: Key, now: Time)
    requires perHour >= 1 && CapRefuses(perHour, sends, k, now) && NewestLast(ListOf(sends, k))
    ensures var before, after := ListOf(sends, k), ListOf(Allow(perHour, sends, k, now).0, k);
            |After(after, now - HOUR)| > |After(before, now - HOUR)| <==> Smears(perHour, sends, k, now)
  {
    var ts, cutoff := ListOf(sends, k), now - HOUR;
    CapRefusalLeaves(perHour, sends, k, now);
    SmearedOvercountsIff(ts, cutoff);
    SmearedNewestLast(ts, cutoff);
    if Stale(Smeared(ts, cutoff), cutoff) {
      StaleCountsNothing(Smeared(ts, cutoff), cutoff, cutoff);
      SmearedCounts(ts, cutoff, cutoff);
    }
  }

  lemma SmearedOvercountsIff(ts: seq<Time>, cutoff: Time)
    requires NewestLast(ts)
    ensures |After(Smeared(ts, cutoff), cutoff)| > |After(ts, cutoff)|
            <==> 0 < |After(ts, cutoff)| < |ts|
  {
    SmearedCounts(ts, cutoff, cutoff);
    AfterNewestLast(ts, cutoff);
    var kept := |After(ts, cutoff)|;
    if 0 < kept < |ts| {
      AfterMember(ts[kept..], cutoff, ts[|ts| - 1]);
    }
  }

  /** A compaction that dropped everything or nothing leaves the list as it was. */
  lemma UnsmearedIsSame(ts: seq<Time>, cutoff: Time)
    requires |After(ts, cutoff)| == 0 || |After(ts, cutoff)| >= |ts|
    ensures Smeared(ts, cutoff) == ts
  {
    AfterShorter(ts, cutoff);
    if |After(ts, cutoff)| == |ts| {
      AfterWhole(ts, cutoff);
    }
  }

  lemma {:induction false} AfterWhole(ts: seq<Time>, c: Time)
    requires |After(ts, c)| == |ts|
    ensures After(ts, c) == ts
  {
    if ts != [] {
      AfterShorter(ts[..|ts| - 1], c);
      AfterWhole(ts[..|ts| - 1], c);
    }
  }

  ghost predicate Sorted(h: seq<Time>) {
    forall i, j :: 0 <= i < j < |h| ==> h[i] <= h[j]
  }

  /** In a sorted list the later entries are the last ones. */
  lemma {:induction false} SortedAfter(ts: seq<Time>, c: Time)
    requires Sorted(ts)
    ensures |After(ts, c)| <= |ts| && After(ts, c) == ts[|ts| - |After(ts, c)|..]
    ensures forall i :: 0 <= i < |ts| ==> (ts[i] > c <==> i >= |ts| - |After(ts, c)|)
  {
    if ts != [] {
      SortedAfter(ts[..|ts| - 1], c);
    }
  }

  /** Each kept entry is counted once more for every place of the tail it still holds. */
  lemma SmearedCount(ts: seq<Time>, cutoff: Time)
    requires Sorted(ts)
    ensures var kept := |After(ts, cutoff)|;
            |After(Smeared(ts, cutoff), cutoff)| == if 2 * kept < |ts| then 2 * kept else |ts|
  {
    var kept := |After(ts, cutoff)|;
    SortedAfter(ts, cutoff);
    var tail := ts[kept..];
    assert forall i :: 0 <= i < |tail| ==> tail[i] == ts[kept + i];
    SortedCount(tail, cutoff, if 2 * kept < |ts| then kept else |tail|);
    SmearedCounts(ts, cutoff, cutoff);
  }

  lemma SortedCount(ts: seq<Time>, c: Time, n: nat)
    requires Sorted(ts) && n <= |ts| && forall i :: 0 <= i < |ts| ==> (ts[i] > c <==> i >= |ts| - n)
    ensures |After(ts, c)| == n
  {
    SortedAfter(ts, c);
    var m := |After(ts, c)|;
    assert n > 0 ==> (ts[|ts| - n] > c <==> n <= m);
    assert m > 0 ==> (ts[|ts| - m] > c <==> m <= n);
  }

  /** The same call made again at once: after a smearing refusal of a full, sorted
      list it is refused for its count exactly when the kept entries, doubled,
      reach the limit they themselves are below. */
  lemma NextCallCountedOutIff(perHour: nat, sends: Sends, k: Key, now: Time)
    requires perHour >= 1 && Smears(perHour, sends, k, now)
    requires Sorted(ListOf(sends, k)) && |ListOf(sends, k)| <= perHour
    ensures var kept, after := |After(ListOf(sends, k), now - HOUR)|, ListOf(Allow(perHour, sends, k, now).0, k);
            |After(after, now - HOUR)| >= perHour <==> |ListOf(sends, k)| == perHour && 2 * kept >= perHour
  {
    var ts, cutoff := ListOf(sends, k), now - HOUR;
    CapRefusalLeaves(perHour, sends, k, now);
    SmearedCount(ts, cutoff);
    SortedNewestLast(ts);
    SmearedNewestLast(ts, cutoff);
    SmearedOvercountsIff(ts, cutoff);
    if Stale(Smeared(ts, cutoff), cutoff) {
      StaleCountsNothing(Smeared(ts, cutoff), cutoff, cutoff);
    }
  }

  lemma SortedNewestLast(ts: seq<Time>)
    requires Sorted(ts)
    ensures NewestLast(ts)
  {}

  // --- Runs, with the sends they recorded ---------------------------------------------

  datatype Call = Call(key: Key, at: Time)

  /** The limiter's map and the calls that recorded a send, in order. */
  datatype System = System(sends: Sends, log: seq<Call>)

  function Step(perHour: nat, sys: System, call: Call): System
    requires perHour >= 1
  {
    var (sends, d) := Allow(perHour, sys.sends, call.key, call.at);
    System(sends, if d.ok then sys.log + [call] else sys.log)
  }

  function Run(perHour: nat, calls: seq<Call>): System
    requires perHour >= 1
  {
    if calls == [] then System(map[], [])
    else Step(perHour, Run(perHour, calls[..|calls| - 1]), calls[|calls| - 1])
  }

  /** When sends to k were recorded. */
  function Times(log: seq<Call>, k: Key): seq<Time> {
    if log == [] then []
    else
      var call := log[|log| - 1];
      Times(log[..|log| - 1], k) + if call.key == k then [call.at] else []
  }

  ghost predicate Ordered(calls: seq<Call>) {
    forall i, j :: 0 <= i < j < |calls| ==> calls[i].at <= calls[j].at
  }

  /** Every send was recorded while fewer than perHour were within the hour before it. */
  ghost predicate Paced(perHour: nat, h: seq<Time>) {
    h == [] ||
    (Paced(perHour, h[..|h| - 1]) && |After(h[..|h| - 1], h[|h| - 1] - HOUR)| < perHour)
  }

  /** The stored list counts at least what the history h does, from the last hour on. */
  ghost predicate Covers(ts: seq<Time>, h: seq<Time>, since: Time) {
    forall c :: c >= since ==> |After(h, c)| <= |After(ts, c)|
  }

  ghost predicate Mirrors(ts: seq<Time>, h: seq<Time>, since: Time) {
    forall c :: c >= since ==> After(h, c) == After(ts, c)
  }

  ghost predicate UpTo(ts: seq<Time>, clock: Time) {
    forall t :: t in ts ==> t <= clock
  }

  ghost predicate ListInv(perHour: nat, ts: seq<Time>, clock: Time) {
    |ts| <= perHour && NewestLast(ts) && UpTo(ts, clock)
  }

  ghost predicate HistoryInv(perHour: nat, h: seq<Time>, clock: Time) {
    Sorted(h) && UpTo(h, clock) && Paced(perHour, h)
  }

  /** What every reachable state keeps for one key. */
  ghost predicate KeyInv(perHour: nat, ts: seq<Time>, h: seq<Time>, clock: Time) {
    ListInv(perHour, ts, clock) && HistoryInv(perHour, h, clock) && Covers(ts, h, clock - HOUR)
  }

  ghost predicate Inv(perHour: nat, sys: System, clock: Time) {
    forall k :: KeyInv(perHour, ListOf(sys.sends, k), Times(sys.log, k), clock)
  }

  /** What a call can do to its own key's list. */
  ghost predicate OwnNext(perHour: nat, ts: seq<Time>, ts': seq<Time>, ok: bool, now: Time) {
    var recent, smeared := After(ts, now - HOUR), Smeared(ts, now - HOUR);
    if ok then |recent| < perHour && ts' == recent + [now]
    else ts' == recent || ts' == smeared || (ts' == [] && Stale(smeared, now - HOUR))
  }

  /** What it can do to another key's list. */
  ghost predicate OtherNext(ts: seq<Time>, ts': seq<Time>, now: Time) {
    ts' == ts || (ts' == [] && Stale(ts, now - HOUR))
  }

  lemma OwnList(perHour: nat, sends: Sends, k: Key, now: Time)
    requires perHour >= 1
    ensures var (sends', d) := Allow(perHour, sends, k, now);
            && OwnNext(perHour, ListOf(sends, k), ListOf(sends', k), d.ok, now)
            && (!d.ok && !CapRefuses(perHour, sends, k, now) ==>
                  var recent := After(ListOf(sends, k), now - HOUR);
                  |recent| >= perHour && ListOf(sends', k) == recent && now + d.wait - HOUR == recent[0])
  {}

  lemma OtherList(perHour: nat, sends: Sends, k: Key, now: Time, other: Key)
    requires perHour >= 1 && other != k
    ensures OtherNext(ListOf(sends, other), ListOf(Allow(perHour, sends, k, now).0, other), now)
  {}

  lemma KeyInvLater(perHour: nat, ts: seq<Time>, h: seq<Time>, clock: Time, now: Time)
    requires KeyInv(perHour, ts, h, clock) && clock <= now
    ensures KeyInv(perHour, ts, h, now)
  {}

  lemma DroppedKeepsInv(perHour: nat, ts: seq<Time>, h: seq<Time>, now: Time)
    requires KeyInv(perHour, ts, h, now) && Stale(ts, now - HOUR)
    ensures KeyInv(perHour, [], h, now)
  {
    forall c | c >= now - HOUR ensures |After(h, c)| <= |After([], c)| {
      StaleCountsNothing(ts, now - HOUR, c);
    }
  }

  lemma CompactedKeepsInv(perHour: nat, ts: seq<Time>, h: seq<Time>, now: Time)
    requires KeyInv(perHour, ts, h, now)
    ensures KeyInv(perHour, After(ts, now - HOUR), h, now)
  {
    var cutoff := now - HOUR;
    AfterShorter(ts, cutoff);
    AfterNewestLast(ts, cutoff);
    forall c | c >= cutoff ensures |After(h, c)| <= |After(After(ts, cutoff), c)| {
      AfterAfter(ts, cutoff, c);
    }
    forall t | t in After(ts, cutoff) ensures t <= now {
      AfterMember(ts, cutoff, t);
    }
  }

  lemma SmearedKeepsInv(perHour: nat, ts: seq<Time>, h: seq<Time>, now: Time)
    requires KeyInv(perHour, ts, h, now)
    ensures KeyInv(perHour, Smeared(ts, now - HOUR), h, now)
  {
    var cutoff := now - HOUR;
    SmearedNewestLast(ts, cutoff);
    forall c | c >= cutoff ensures |After(h, c)| <= |After(Smeared(ts, cutoff), c)| {
      SmearedCounts(ts, cutoff, c);
    }
    forall t | t in Smeared(ts, cutoff) ensures t <= now {
      AfterMember(ts, cutoff, t);
    }
  }

  lemma SortedSnoc(h: seq<Time>, now: Time)
    requires Sorted(h) && UpTo(h, now)
    ensures Sorted(h + [now])
  {
    assert forall i :: 0 <= i < |h| ==> h[i] in h;
  }

  lemma PacedSnoc(perHour: nat, h: seq<Time>, now: Time)
    requires Paced(perHour, h) && |After(h, now - HOUR)| < perHour
    ensures Paced(perHour, h + [now])
  {
    assert (h + [now])[..|h|] == h;
  }

  lemma RecordedHistory(perHour: nat, h: seq<Time>, now: Time)
    requires HistoryInv(perHour, h, now) && |After(h, now - HOUR)| < perHour
    ensures HistoryInv(perHour, h + [now], now)
  {
    SortedSnoc(h, now);
    PacedSnoc(perHour, h, now);
  }

  lemma RecordedCovers(ts: seq<Time>, h: seq<Time>, now: Time)
    requires Covers(ts, h, now - HOUR)
    ensures Covers(After(ts, now - HOUR) + [now], h + [now], now - HOUR)
  {
    var cutoff := now - HOUR;
    forall c | c >= cutoff ensures |After(h + [now], c)| <= |After(After(ts, cutoff) + [now], c)| {
      AfterAfter(ts, cutoff, c);
      AfterSnoc(h, now, c);
      AfterSnoc(After(ts, cutoff), now, c);
    }
  }

  lemma RecordedKeepsInv(perHour: nat, ts: seq<Time>, h: seq<Time>, now: Time)
    requires KeyInv(perHour, ts, h, now) && |After(ts, now - HOUR)| < perHour
    ensures KeyInv(perHour, After(ts, now - HOUR) + [now], h + [now], now)
  {
    CompactedKeepsInv(perHour, ts, h, now);
    RecordedHistory(perHour, h, now);
    RecordedCovers(ts, h, now);
  }

  lemma TimesSnoc(log: seq<Call>, call: Call, k: Key)
    ensures Times(log + [call], k) == if call.key == k then Times(log, k) + [call.at] else Times(log, k)
  {
    assert (log + [call])[..|log|] == log;
  }

  lemma OwnKeepsInv(perHour: nat, ts: seq<Time>, h: seq<Time>, ts': seq<Time>, ok: bool, now: Time)
    requires KeyInv(perHour, ts, h, now) && OwnNext(perHour, ts, ts', ok, now)
    ensures KeyInv(perHour, ts', if ok then h + [now] else h, now)
  {
    if ok {
      RecordedKeepsInv(perHour, ts, h, now);
    } else if ts' == After(ts, now - HOUR) {
      CompactedKeepsInv(perHour, ts, h, now);
    } else {
      SmearedKeepsInv(perHour, ts, h, now);
      if ts' != Smeared(ts, now - HOUR) {
        DroppedKeepsInv(perHour, Smeared(ts, now - HOUR), h, now);
      }
    }
  }

  lemma OtherKeepsInv(perHour: nat, ts: seq<Time>, h: seq<Time>, ts': seq<Time>, now: Time)
    requires KeyInv(perHour, ts, h, now) && OtherNext(ts, ts', now)
    ensures KeyInv(perHour, ts', h, now)
  {
    if ts' != ts {
      DroppedKeepsInv(perHour, ts, h, now);
    }
  }

  /** What a step does to its own key's list and history. */
  lemma StepAtOwn(perHour: nat, sys: System, call: Call)
    requires perHour >= 1
    ensures var next, k := Step(perHour, sys, call), call.key;
            var ok := Allow(perHour, sys.sends, k, call.at).1.ok;
            && OwnNext(perHour, ListOf(sys.sends, k), ListOf(next.sends, k), ok, call.at)
            && Times(next.log, k) == (if ok then Times(sys.log, k) + [call.at] else Times(sys.log, k))
            && (!ok && !CapRefuses(perHour, sys.sends, k, call.at) ==>
                  ListOf(next.sends, k) == After(ListOf(sys.sends, k), call.at - HOUR))
  {
    TimesSnoc(sys.log, call, call.key);
    OwnList(perHour, sys.sends, call.key, call.at);
  }

  /** What it does to another key's. */
  lemma StepAtOther(perHour: nat, sys: System, call: Call, k: Key)
    requires perHour >= 1 && k != call.key
    ensures var next := Step(perHour, sys, call);
            && OtherNext(ListOf(sys.sends, k), ListOf(next.sends, k), call.at)
            && Times(next.log, k) == Times(sys.log, k)
  {
    TimesSnoc(sys.log, call, k);
    OtherList(perHour, sys.sends, call.key, call.at, k);
  }

  lemma StepKeepsKeyInv(perHour: nat, sys: System, call: Call, k: Key)
    requires perHour >= 1 && KeyInv(perHour, ListOf(sys.sends, k), Times(sys.log, k), call.at)
    ensures var next := Step(perHour, sys, call);
            KeyInv(perHour, ListOf(next.sends, k), Times(next.log, k), call.at)
  {
    var next := Step(perHour, sys, call);
    if k == call.key {
      StepAtOwn(perHour, sys, call);
      OwnKeepsInv(perHour, ListOf(sys.sends, k), Times(sys.log, k), ListOf(next.sends, k),
                  Allow(perHour, sys.sends, call.key, call.at).1.ok, call.at);
    } else {
      StepAtOther(perHour, sys, call, k);
      OtherKeepsInv(perHour, ListOf(sys.sends, k), Times(sys.log, k), ListOf(next.sends, k), call.at);
    }
  }

  lemma StepKeepsInv(perHour: nat, sys: System, clock: Time, call: Call)
    requires perHour >= 1 && Inv(perHour, sys, clock) && clock <= call.at
    ensures Inv(perHour, Step(perHour, sys, call), call.at)
  {
    var next := Step(perHour, sys, call);
    forall k ensures KeyInv(perHour, ListOf(next.sends, k), Times(next.log, k), call.at) {
      KeyInvLater(perHour, ListOf(sys.sends, k), Times(sys.log, k), clock, call.at);
      StepKeepsKeyInv(perHour, sys, call, k);
    }
  }

  lemma {:induction false} RunKeepsInv(perHour: nat, calls: seq<Call>, clock: Time)
    requires perHour >= 1 && Ordered(calls) && forall i :: 0 <= i < |calls| ==> calls[i].at <= clock
    ensures Inv(perHour, Run(perHour, calls), clock)
    decreases |calls|
  {
    var sys := Run(perHour, calls);
    if calls != [] {
      var n := |calls| - 1;
      RunKeepsInv(perHour, calls[..n], calls[n].at);
      StepKeepsInv(perHour, Run(perHour, calls[..n]), calls[n].at, calls[n]);
      forall k ensures KeyInv(perHour, ListOf(sys.sends, k), Times(sys.log, k), clock) {
        KeyInvLater(perHour, ListOf(sys.sends, k), Times(sys.log, k), calls[n].at, clock);
      }
    }
  }

  // --- At most perHour an hour ----------------------------------------------------------

  /** How many entries lie in the half-open interval (from, to]. */
  function CountIn(h: seq<Time>, from: Time, to: Time): nat {
    if h == [] then 0
    else CountIn(h[..|h| - 1], from, to) + if from < h[|h| - 1] <= to then 1 else 0
  }

  lemma {:induction false} CountAtMostAfter(h: seq<Time>, from: Time, to: Time)
    ensures CountIn(h, from, to) <= |After(h, from)|
  {
    if h != [] {
      CountAtMostAfter(h[..|h| - 1], from, to);
    }
  }

  lemma {:induction false} AfterAntitone(h: seq<Time>, c: Time, d: Time)
    requires c <= d
    ensures |After(h, d)| <= |After(h, c)|
  {
    if h != [] {
      AfterAntitone(h[..|h| - 1], c, d);
    }
  }

  lemma {:induction false} PacedBoundsEveryHour(perHour: nat, h: seq<Time>, from: Time)
    requires perHour >= 1 && Sorted(h) && Paced(perHour, h)
    ensures CountIn(h, from, from + HOUR) <= perHour
  {
    if h != [] {
      var n := |h| - 1;
      var front := h[..n];
      PacedBoundsEveryHour(perHour, front, from);
      if from < h[n] <= from + HOUR {
        CountAtMostAfter(front, from, from + HOUR);
        AfterAntitone(front, h[n] - HOUR, from);
      }
    }
  }

  /** In every run, no half-open hour holds more than perHour recorded sends to one key. */
  lemma RunsRespectLimit(perHour: nat, calls: seq<Call>, k: Key, from: Time)
    requires perHour >= 1 && Ordered(calls)
    ensures CountIn(Times(Run(perHour, calls).log, k), from, from + HOUR) <= perHour
  {
    if calls != [] {
      RunKeepsInv(perHour, calls, calls[|calls| - 1].at);
      assert KeyInv(perHour, ListOf(Run(perHour, calls).sends, k), Times(Run(perHour, calls).log, k),
             calls[|calls| - 1].at);
      PacedBoundsEveryHour(perHour, Times(Run(perHour, calls).log, k), from);
    }
  }

  // --- When the decision is exact ----------------------------------------------------------

  /** No call of the run was refused by the cap while it compacted away some but
      not all of k's entries. */
  ghost predicate NoSmear(perHour: nat, calls: seq<Call>, k: Key)
    requires perHour >= 1
  {
    calls == [] ||
    (var n := |calls| - 1;
     NoSmear(perHour, calls[..n], k)
       && !(calls[n].key == k && Smears(perHour, Run(perHour, calls[..n]).sends, k, calls[n].at)))
  }

  lemma OwnMirrors(ts: seq<Time>, h: seq<Time>, now: Time, c: Time)
    requires c >= now - HOUR && After(h, c) == After(ts, c)
    ensures After(h, c) == After(After(ts, now - HOUR), c)
    ensures After(h + [now], c) == After(After(ts, now - HOUR) + [now], c)
  {
    AfterAfter(ts, now - HOUR, c);
    AfterSnoc(h, now, c);
    AfterSnoc(After(ts, now - HOUR), now, c);
  }

  lemma DroppedOrSameMirrors(ts: seq<Time>, h: seq<Time>, ts': seq<Time>, now: Time, c: Time)
    requires NewestLast(ts) && c >= now - HOUR && After(h, c) == After(ts, c) && OtherNext(ts, ts', now)
    ensures After(h, c) == After(ts', c)
  {
    if Stale(ts, now - HOUR) {
      StaleCountsNothing(ts, now - HOUR, c);
    }
  }

  lemma OtherStepMirrors(perHour: nat, sys: System, call: Call, k: Key, c: Time)
    requires perHour >= 1 && c >= call.at - HOUR && call.key != k
    requires NewestLast(ListOf(sys.sends, k)) && After(Times(sys.log, k), c) == After(ListOf(sys.sends, k), c)
    ensures var next := Step(perHour, sys, call);
            After(Times(next.log, k), c) == After(ListOf(next.sends, k), c)
  {
    StepAtOther(perHour, sys, call, k);
    DroppedOrSameMirrors(ListOf(sys.sends, k), Times(sys.log, k), ListOf(Step(perHour, sys, call).sends, k),
                         call.at, c);
  }

  lemma OwnStepMirrors(perHour: nat, sys: System, call: Call, c: Time)
    requires perHour >= 1 && c >= call.at - HOUR && !Smears(perHour, sys.sends, call.key, call.at)
    requires NewestLast(ListOf(sys.sends, call.key))
    requires After(Times(sys.log, call.key), c) == After(ListOf(sys.sends, call.key), c)
    ensures var next := Step(perHour, sys, call);
            After(Times(next.log, call.key), c) == After(ListOf(next.sends, call.key), c)
  {
    if CapRefuses(perHour, sys.sends, call.key, call.at) {
      CappedStepMirrors(perHour, sys, call, c);
    } else {
      UncappedStepMirrors(perHour, sys, call, c);
    }
  }

  lemma CappedStepMirrors(perHour: nat, sys: System, call: Call, c: Time)
    requires perHour >= 1 && c >= call.at - HOUR && NewestLast(ListOf(sys.sends, call.key))
    requires CapRefuses(perHour, sys.sends, call.key, call.at) && !Smears(perHour, sys.sends, call.key, call.at)
    requires After(Times(sys.log, call.key), c) == After(ListOf(sys.sends, call.key), c)
    ensures var next := Step(perHour, sys, call);
            After(Times(next.log, call.key), c) == After(ListOf(next.sends, call.key), c)
  {
    HarmlessCapRefusal(perHour, sys.sends, call.key, call.at);
    var ts' := ListOf(Allow(perHour, sys.sends, call.key, call.at).0, call.key);
    DroppedOrSameMirrors(ListOf(sys.sends, call.key), Times(sys.log, call.key), ts', call.at, c);
  }

  lemma UncappedStepMirrors(perHour: nat, sys: System, call: Call, c: Time)
    requires perHour >= 1 && c >= call.at - HOUR && !CapRefuses(perHour, sys.sends, call.key, call.at)
    requires After(Times(sys.log, call.key), c) == After(ListOf(sys.sends, call.key), c)
    ensures var next := Step(perHour, sys, call);
            After(Times(next.log, call.key), c) == After(ListOf(next.sends, call.key), c)
  {
    StepAtOwn(perHour, sys, call);
    OwnMirrors(ListOf(sys.sends, call.key), Times(sys.log, call.key), call.at, c);
  }

  lemma HarmlessCapRefusal(perHour: nat, sends: Sends, k: Key, now: Time)
    requires perHour >= 1 && CapRefuses(perHour, sends, k, now) && !Smears(perHour, sends, k, now)
    ensures OtherNext(ListOf(sends, k), ListOf(Allow(perHour, sends, k, now).0, k), now)
  {
    CapRefusalLeaves(perHour, sends, k, now);
    UnsmearedIsSame(ListOf(sends, k), now - HOUR);
  }

  lemma StepMirrorsAt(perHour: nat, sys: System, call: Call, k: Key, c: Time)
    requires perHour >= 1 && c >= call.at - HOUR
    requires call.key == k ==> !Smears(perHour, sys.sends, k, call.at)
    requires NewestLast(ListOf(sys.sends, k)) && After(Times(sys.log, k), c) == After(ListOf(sys.sends, k), c)
    ensures var next := Step(perHour, sys, call);
            After(Times(next.log, k), c) == After(ListOf(next.sends, k), c)
  {
    if k == call.key {
      OwnStepMirrors(perHour, sys, call, c);
    } else {
      OtherStepMirrors(perHour, sys, call, k, c);
    }
  }

  lemma {:induction false} RunMirrors(perHour: nat, calls: seq<Call>, k: Key, clock: Time)
    requires perHour >= 1 && Ordered(calls) && NoSmear(perHour, calls, k)
    requires forall i :: 0 <= i < |calls| ==> calls[i].at <= clock
    ensures Mirrors(ListOf(Run(perHour, calls).sends, k), Times(Run(perHour, calls).log, k), clock - HOUR)
    decreases |calls|
  {
    if calls != [] {
      var n := |calls| - 1;
      var front := calls[..n];
      RunMirrors(perHour, front, k, calls[n].at);
      RunKeepsInv(perHour, front, calls[n].at);
      var sys, end := Run(perHour, front), Run(perHour, calls);
      assert KeyInv(perHour, ListOf(sys.sends, k), Times(sys.log, k), calls[n].at);
      forall c | c >= clock - HOUR
        ensures After(Times(end.log, k), c) == After(ListOf(end.sends, k), c)
      {
        assert After(Times(sys.log, k), c) == After(ListOf(sys.sends, k), c);
        StepMirrorsAt(perHour, sys, calls[n], k, c);
      }
    }
  }

  /** The comment's promise for a send to k at now: recorded exactly while fewer
      than perHour were recorded in the hour up to now, unless the cap refuses. */
  ghost predicate Exact(perHour: nat, calls: seq<Call>, k: Key, now: Time)
    requires perHour >= 1
  {
    var sys := Run(perHour, calls);
    Allow(perHour, sys.sends, k, now).1.ok
    <==> |After(Times(sys.log, k), now - HOUR)| < perHour && !CapRefuses(perHour, sys.sends, k, now)
  }

  ghost predicate Reachable(calls: seq<Call>, now: Time) {
    Ordered(calls) && forall i :: 0 <= i < |calls| ==> calls[i].at <= now
  }

  /** After any run a send is allowed only while fewer than perHour were recorded
      in the hour up to now; and it is allowed whenever that holds, unless the cap
      refuses this call, if no cap refusal smeared k's list before. */
  lemma AllowedIffBelowLimit(perHour: nat, calls: seq<Call>, k: Key, now: Time)
    requires perHour >= 1 && Reachable(calls, now)
    ensures var sys := Run(perHour, calls);
            && (Allow(perHour, sys.sends, k, now).1.ok ==> |After(Times(sys.log, k), now - HOUR)| < perHour)
            && (NoSmear(perHour, calls, k) ==> Exact(perHour, calls, k, now))
  {
    var sys := Run(perHour, calls);
    RunKeepsInv(perHour, calls, now);
    assert KeyInv(perHour, ListOf(sys.sends, k), Times(sys.log, k), now);
    OwnList(perHour, sys.sends, k, now);
    if NoSmear(perHour, calls, k) {
      RunMirrors(perHour, calls, k, now);
      assert Mirrors(ListOf(sys.sends, k), Times(sys.log, k), now - HOUR);
    }
  }

  /** With a limit of one send an hour no list has two entries, so none is smeared. */
  lemma {:induction false} NoSmearAtOne(calls: seq<Call>, k: Key)
    requires Ordered(calls)
    ensures NoSmear(1, calls, k)
  {
    if calls != [] {
      var n := |calls| - 1;
      NoSmearAtOne(calls[..n], k);
      RunKeepsInv(1, calls[..n], calls[n].at);
      assert KeyInv(1, ListOf(Run(1, calls[..n]).sends, k), Times(Run(1, calls[..n]).log, k), calls[n].at);
    }
  }

  // --- The returned wait ------------------------------------------------------------------

  function RunFrom(perHour: nat, sends: Sends, calls: seq<Call>): Sends
    requires perHour >= 1
    decreases |calls|
  {
    if calls == [] then sends
    else RunFrom(perHour, Allow(perHour, sends, calls[0].key, calls[0].at).0, calls[1..])
  }

  lemma {:induction false} OthersLeaveList(perHour: nat, sends: Sends, calls: seq<Call>, k: Key)
    requires perHour >= 1 && forall i :: 0 <= i < |calls| ==> calls[i].key != k
    ensures ListOf(RunFrom(perHour, sends, calls), k) == ListOf(sends, k)
            || ListOf(RunFrom(perHour, sends, calls), k) == []
    decreases |calls|
  {
    if calls != [] {
      OtherList(perHour, sends, calls[0].key, calls[0].at, k);
      OthersLeaveList(perHour, Allow(perHour, sends, calls[0].key, calls[0].at).0, calls[1..], k);
    }
  }

  /** In every reachable state, a refused caller who comes back after the returned
      wait is allowed, whatever other keys did meanwhile, unless the cap is hit. */
  lemma WaitSuffices(perHour: nat, before: seq<Call>, sends: Sends, k: Key, now: Time, others: seq<Call>)
    requires perHour >= 1 && Ordered(before) && forall i :: 0 <= i < |before| ==> before[i].at <= now
    requires forall i :: 0 <= i < |others| ==> others[i].key != k
    requires sends == Run(perHour, before).sends
    requires !Allow(perHour, sends, k, now).1.ok && !CapRefuses(perHour, sends, k, now)
    ensures var (sends1, d) := Allow(perHour, sends, k, now);
            var sends2 := RunFrom(perHour, sends1, others);
            d.wait > 0 && (Allow(perHour, sends2, k, now + d.wait).1.ok || CapRefuses(perHour, sends2, k, now + d.wait))
  {
    ReachableListShort(perHour, before, now, k);
    ShortListWaits(perHour, sends, k, now, others);
  }

  lemma ShortListWaits(perHour: nat, sends: Sends, k: Key, now: Time, others: seq<Call>)
    requires perHour >= 1 && |ListOf(sends, k)| <= perHour
    requires !Allow(perHour, sends, k, now).1.ok && !CapRefuses(perHour, sends, k, now)
    requires forall i :: 0 <= i < |others| ==> others[i].key != k
    ensures var (sends1, d) := Allow(perHour, sends, k, now);
            var sends2 := RunFrom(perHour, sends1, others);
            d.wait > 0 && (Allow(perHour, sends2, k, now + d.wait).1.ok || CapRefuses(perHour, sends2, k, now + d.wait))
  {
    var sends1 := Allow(perHour, sends, k, now).0;
    OthersLeaveList(perHour, sends1, others, k);
    RefusedThenWaited(perHour, sends, k, now, RunFrom(perHour, sends1, others));
  }

  lemma ReachableListShort(perHour: nat, calls: seq<Call>, clock: Time, k: Key)
    requires perHour >= 1 && Ordered(calls) && forall i :: 0 <= i < |calls| ==> calls[i].at <= clock
    ensures |ListOf(Run(perHour, calls).sends, k)| <= perHour
  {
    RunKeepsInv(perHour, calls, clock);
    assert KeyInv(perHour, ListOf(Run(perHour, calls).sends, k), Times(Run(perHour, calls).log, k), clock);
  }

  lemma RefusedThenWaited(perHour: nat, sends: Sends, k: Key, now: Time, later: Sends)
    requires perHour >= 1 && |ListOf(sends, k)| <= perHour
    requires !Allow(perHour, sends, k, now).1.ok && !CapRefuses(perHour, sends, k, now)
    requires ListOf(later, k) == ListOf(Allow(perHour, sends, k, now).0, k) || ListOf(later, k) == []
    ensures var d := Allow(perHour, sends, k, now).1;
            d.wait > 0 && (Allow(perHour, later, k, now + d.wait).1.ok || CapRefuses(perHour, later, k, now + d.wait))
  {
    var recent := After(ListOf(sends, k), now - HOUR);
    OwnList(perHour, sends, k, now);
    AfterShorter(ListOf(sends, k), now - HOUR);
    AfterMember(ListOf(sends, k), now - HOUR, recent[0]);
    FirstAgesOut(recent);
  }

  lemma FirstAgesOut(recent: seq<Time>)
    requires recent != []
    ensures |After(recent, recent[0])| < |recent|
  {
    assert recent == [recent[0]] + recent[1..];
    AfterConcat([recent[0]], recent[1..], recent[0]);
    AfterShorter(recent[1..], recent[0]);
  }

  /** For a sorted list the wait is also the least one: until it is over, all
      perHour sends still count. */
  lemma {:induction false} WaitIsLeast(recent: seq<Time>, cutoff: Time, d: int)
    requires recent != [] && Sorted(recent) && (forall t :: t in recent ==> t > cutoff) && d >= 0
    ensures After(recent, cutoff + d) == recent <==> d < recent[0] - cutoff
  {
    if d >= recent[0] - cutoff {
      AfterMember(recent, cutoff + d, recent[0]);
      assert recent[0] in recent;
    } else {
      assert forall t :: t in recent ==> t >= recent[0];
      AllAfter(recent, cutoff + d);
    }
  }

  lemma {:induction false} AllAfter(ts: seq<Time>, c: Time)
    requires forall t :: t in ts ==> t > c
    ensures After(ts, c) == ts
  {
    if ts != [] {
      var front, last := ts[..|ts| - 1], ts[|ts| - 1];
      assert last in ts;
      forall t | t in front ensures t > c {
        assert t in ts;
      }
      AllAfter(front, c);
    }
  }
}
