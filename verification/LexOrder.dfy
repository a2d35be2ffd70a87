/** Index keys compare field by field. */
module LexOrder {
  predicate LexLt(a: seq<int>, b: seq<int>)
    requires |a| == |b|
  {
    a != [] && (a[0] < b[0] || (a[0] == b[0] && LexLt(a[1..], b[1..])))
  }

  lemma {:induction false} LexTotal(a: seq<int>, b: seq<int>)
    requires |a| == |b|
    ensures LexLt(a, b) || a == b || LexLt(b, a)
    ensures !(LexLt(a, b) && LexLt(b, a)) && !(LexLt(a, b) && a == b)
  {
    if a != [] {
      LexTotal(a[1..], b[1..]);
      assert a == [a[0]] + a[1..] && b == [b[0]] + b[1..];
    }
  }

  lemma {:induction false} LexTransitive(a: seq<int>, b: seq<int>, c: seq<int>)
    requires |a| == |b| == |c| && LexLt(a, b) && LexLt(b, c)
    ensures LexLt(a, c)
  {
    if a[0] == b[0] == c[0] {
      LexTransitive(a[1..], b[1..], c[1..]);
    }
  }

  /** Order of prefixes: a smaller prefix decides; an ordered pair has ordered or equal prefixes. */
  lemma {:induction false} LexPrefix(a: seq<int>, b: seq<int>, n: nat)
    requires n <= |a| == |b|
    ensures LexLt(a[..n], b[..n]) ==> LexLt(a, b)
    ensures LexLt(a, b) ==> LexLt(a[..n], b[..n]) || a[..n] == b[..n]
  {
    if n > 0 {
      LexPrefix(a[1..], b[1..], n - 1);
      assert a[..n][1..] == a[1..][..n - 1] && b[..n][1..] == b[1..][..n - 1];
      assert a[..n] == [a[0]] + a[1..][..n - 1] && b[..n] == [b[0]] + b[1..][..n - 1];
    }
  }

  /** With an equal prefix the next field decides. */
  lemma {:induction false} LexNext(a: seq<int>, b: seq<int>, n: nat)
    requires n < |a| == |b| && a[..n] == b[..n]
    ensures LexLt(a, b) ==> a[n] <= b[n]
    ensures a[n] < b[n] ==> LexLt(a, b)
    ensures |a| == n + 1 && LexLt(a, b) ==> a[n] < b[n]
  {
    if n > 0 {
      assert a[0] == a[..n][0] && b[0] == b[..n][0];
      assert a[1..][..n - 1] == a[..n][1..] && b[1..][..n - 1] == b[..n][1..];
      LexNext(a[1..], b[1..], n - 1);
    } else if |a| == 1 {
      assert !LexLt(a[1..], b[1..]);
    }
  }

  /** `a` comes before `b` for a cursor that travels upwards or downwards. */
  predicate Before(asc: bool, a: seq<int>, b: seq<int>)
    requires |a| == |b|
  {
    if asc then LexLt(a, b) else LexLt(b, a)
  }
}
