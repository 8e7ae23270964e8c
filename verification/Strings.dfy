/** Go's order on strings: lexicographic by byte. */
module Strings {
  predicate Less(a: string, b: string) {
    if b == "" then false
    else if a == "" then true
    else a[0] < b[0] || (a[0] == b[0] && Less(a[1..], b[1..]))
  }

  lemma {:induction false} LessTotal(a: string, b: string)
    ensures a == b <==> !Less(a, b) && !Less(b, a)
    ensures !(Less(a, b) && Less(b, a))
  {
    if a != "" && b != "" && a[0] == b[0] {
      LessTotal(a[1..], b[1..]);
      assert a == [a[0]] + a[1..] && b == [b[0]] + b[1..];
    }
  }

  lemma {:induction false} LessTransitive(a: string, b: string, c: string)
    requires Less(a, b) && Less(b, c)
    ensures Less(a, c)
  {
    if a != "" && a[0] == b[0] == c[0] {
      LessTransitive(a[1..], b[1..], c[1..]);
    }
  }

  /** a and b agree up to p, where a ends or has the smaller character. */
  ghost predicate SplitsAt(a: string, b: string, p: int) {
    0 <= p <= |a| && p < |b| && a[..p] == b[..p] && (p == |a| || a[p] < b[p])
  }

  lemma {:induction false} LessIff(a: string, b: string)
    ensures Less(a, b) <==> exists p :: SplitsAt(a, b, p)
  {
    if a == "" || b == "" || a[0] != b[0] {
      assert Less(a, b) ==> SplitsAt(a, b, 0);
      assert forall p :: SplitsAt(a, b, p) && p > 0 ==> a[0] == a[..p][0] == b[..p][0] == b[0];
    } else {
      LessIff(a[1..], b[1..]);
      if p :| SplitsAt(a[1..], b[1..], p) {
        assert a[..p + 1] == [a[0]] + a[1..][..p] && b[..p + 1] == [b[0]] + b[1..][..p];
        assert SplitsAt(a, b, p + 1);
      }
      if p :| SplitsAt(a, b, p) {
        assert a[1..][..p - 1] == a[..p][1..] && b[1..][..p - 1] == b[..p][1..];
        assert SplitsAt(a[1..], b[1..], p - 1);
      }
    }
  }
}
