/** Sums and counts over sequences, used to state the blending invariants. */
module Sums {

  /** The sum of the elements, added from the front. */
  function Sum(s: seq<real>): real {
    if |s| == 0 then 0.0 else s[0] + Sum(s[1..])
  }

  /** The number of `true` entries. */
  function CountTrue(s: seq<bool>): nat {
    if |s| == 0 then 0 else (if s[0] then 1 else 0) + CountTrue(s[1..])
  }

  lemma {:induction false} SumAppend(a: seq<real>, b: seq<real>)
    ensures Sum(a + b) == Sum(a) + Sum(b)
  {
    if |a| == 0 {
      assert a + b == b;
    } else {
      assert (a + b)[1..] == a[1..] + b;
      SumAppend(a[1..], b);
    }
  }

  /** A sum of scaled entries is the scaled sum. */
  lemma {:induction false} SumScale(s: seq<real>, t: seq<real>, k: real)
    requires |t| == |s|
    requires forall i :: 0 <= i < |s| ==> t[i] == k * s[i]
    ensures Sum(t) == k * Sum(s)
  {
    if |s| > 0 {
      SumScale(s[1..], t[1..], k);
    }
  }

  /** Reversing does not change a sum. */
  lemma {:induction false} SumReverse(s: seq<real>, t: seq<real>)
    requires |t| == |s|
    requires forall i :: 0 <= i < |s| ==> t[i] == s[|s| - 1 - i]
    ensures Sum(t) == Sum(s)
  {
    if |s| > 0 {
      var n := |s|;
      // t = rev(s[1..]) + [s[0]]
      SumReverse(s[1..], t[..n - 1]);
      assert t == t[..n - 1] + [t[n - 1]];
      SumAppend(t[..n - 1], [t[n - 1]]);
    }
  }

  /** Entry-wise addition adds the sums. */
  lemma {:induction false} SumPointwise(a: seq<real>, b: seq<real>, c: seq<real>)
    requires |a| == |b| == |c|
    requires forall i :: 0 <= i < |a| ==> c[i] == a[i] + b[i]
    ensures Sum(c) == Sum(a) + Sum(b)
  {
    if |a| > 0 {
      SumPointwise(a[1..], b[1..], c[1..]);
    }
  }

  /** A sequence whose entries negate those of `t` taken cyclically backwards
      (entry 0 against entry 0, entry `i` against entry `n - i`) sums to
      minus the sum of `t`. */
  lemma SumNegatedCyclicReverse(t: seq<real>, u: seq<real>)
    requires |u| == |t| > 0
    requires forall i :: 0 <= i < |t| ==> -u[i] == t[if i == 0 then 0 else |t| - i]
    ensures Sum(u) == -Sum(t)
  {
    var n := |t|;
    var negU := seq(n, i requires 0 <= i < n => -u[i]);
    assert -u[0] == t[0];
    forall i | 1 <= i < n
      ensures negU[i] == t[n - i]
    {
      assert -u[i] == t[if i == 0 then 0 else n - i];
    }
    SumHeadReverse(t, negU);
    SumNegate(u, negU);
  }

  /** Negating every entry negates the sum. */
  lemma {:induction false} SumNegate(s: seq<real>, t: seq<real>)
    requires |t| == |s|
    requires forall i :: 0 <= i < |s| ==> t[i] == -s[i]
    ensures Sum(t) == -Sum(s)
  {
    if |s| > 0 {
      SumNegate(s[1..], t[1..]);
    }
  }

  /** Keeping the head and reversing the tail does not change a sum. */
  lemma SumHeadReverse(t: seq<real>, v: seq<real>)
    requires |v| == |t| > 0
    requires v[0] == t[0]
    requires forall i :: 1 <= i < |t| ==> v[i] == t[|t| - i]
    ensures Sum(v) == Sum(t)
  {
    var n := |t|;
    forall i | 0 <= i < n - 1
      ensures v[1..][i] == t[1..][n - 2 - i]
    {
      assert v[1..][i] == v[i + 1];
    }
    SumReverse(t[1..], v[1..]);
  }

  /** Splitting one entry into two parts with the same total keeps the sum. */
  lemma SumSplitEntry(t: seq<real>, u: seq<real>, i: nat, a: real, b: real)
    requires i < |t|
    requires u == t[..i] + [a, b] + t[i + 1..]
    requires a + b == t[i]
    ensures Sum(u) == Sum(t)
  {
    assert t == t[..i] + [t[i]] + t[i + 1..];
    SumAppend(t[..i] + [a, b], t[i + 1..]);
    SumAppend(t[..i], [a, b]);
    SumAppend(t[..i] + [t[i]], t[i + 1..]);
    SumAppend(t[..i], [t[i]]);
    assert Sum([a, b]) == a + Sum([b]);
  }

  /** A sequence that is `v` exactly where `marks` is set and `0` elsewhere
      sums to `v` times the number of marks. */
  lemma {:induction false} SumOfMarked(marks: seq<bool>, w: seq<real>, v: real)
    requires |w| == |marks|
    requires forall i :: 0 <= i < |w| ==> w[i] == (if marks[i] then v else 0.0)
    ensures Sum(w) == v * CountTrue(marks) as real
  {
    if |w| > 0 {
      SumOfMarked(marks[1..], w[1..], v);
    }
  }

  /** `CountTrue` is zero exactly when no entry is set. */
  lemma {:induction false} CountTrueZero(s: seq<bool>)
    ensures CountTrue(s) == 0 <==> forall i :: 0 <= i < |s| ==> !s[i]
  {
    if |s| > 0 {
      CountTrueZero(s[1..]);
      assert forall i :: 1 <= i < |s| ==> s[i] == s[1..][i - 1];
    }
  }
}
