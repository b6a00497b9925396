/**
 * Remainders of symbol sequences, for any commutative addition and any additive "multiplication by x".  The
 * checksum of src/bech32.cpp is the instance over 30-bit remainders with exclusive or.
 */
module Checksum {
  datatype Ring<!G(!new)> = Ring(plus: (G, G) -> G, timesX: G -> G, zero: G)

  /** The one law needed of four summands. */
  ghost predicate Medial<G(!new)>(r: Ring<G>, a: G, b: G, c: G, d: G) {
    r.plus(r.plus(a, b), r.plus(c, d)) == r.plus(r.plus(a, c), r.plus(b, d))
  }

  ghost predicate LinearAt<G(!new)>(r: Ring<G>, a: G, b: G) {
    r.timesX(r.plus(a, b)) == r.plus(r.timesX(a), r.timesX(b))
  }

  /** The laws of the addition, and the multiplication is additive. */
  ghost predicate Additive<G(!new)>(r: Ring<G>) {
    && (forall a, b, c, d {:trigger Medial(r, a, b, c, d)} :: Medial(r, a, b, c, d))
    && (forall a {:trigger r.plus(a, r.zero)} {:trigger r.plus(r.zero, a)} :: r.plus(a, r.zero) == a == r.plus(r.zero, a))
    && (forall a {:trigger r.plus(a, a)} :: r.plus(a, a) == r.zero)
    && (forall a, b {:trigger LinearAt(r, a, b)} :: LinearAt(r, a, b))
    && r.timesX(r.zero) == r.zero
  }

  /** The multiplication takes no non-zero remainder to zero. */
  ghost predicate Invertible<G(!new)>(r: Ring<G>, small: G -> bool) {
    forall a :: small(a) && a != r.zero ==> small(r.timesX(a)) && r.timesX(a) != r.zero
  }

  function Feed<G(!new)>(r: Ring<G>, c: G, v: seq<G>): G {
    if v == [] then c else r.plus(r.timesX(Feed(r, c, v[..|v| - 1])), v[|v| - 1])
  }

  function Sum<G(!new)>(r: Ring<G>, u: seq<G>, v: seq<G>): (d: seq<G>)
    requires |u| == |v|
    ensures |d| == |u| && forall i :: 0 <= i < |u| ==> d[i] == r.plus(u[i], v[i])
  {
    seq(|u|, i requires 0 <= i < |u| => r.plus(u[i], v[i]))
  }

  function Zeros<G(!new)>(r: Ring<G>, n: nat): (z: seq<G>)
    ensures |z| == n && forall i :: 0 <= i < n ==> z[i] == r.zero
  {
    seq(n, _ => r.zero)
  }

  lemma {:induction false} FeedSum<G(!new)>(r: Ring<G>, a: G, u: seq<G>, b: G, v: seq<G>)
    requires Additive(r) && |u| == |v|
    ensures Feed(r, r.plus(a, b), Sum(r, u, v)) == r.plus(Feed(r, a, u), Feed(r, b, v))
  {
    if u != [] {
      var n, d := |u| - 1, Sum(r, u, v);
      assert d[..n] == Sum(r, u[..n], v[..n]);
      FeedSum(r, a, u[..n], b, v[..n]);
      var p, q := Feed(r, a, u[..n]), Feed(r, b, v[..n]);
      assert LinearAt(r, p, q);
      assert Medial(r, r.timesX(p), r.timesX(q), u[n], v[n]);
    }
  }

  lemma {:induction false} FeedConcat<G(!new)>(r: Ring<G>, c: G, u: seq<G>, v: seq<G>)
    ensures Feed(r, c, u + v) == Feed(r, Feed(r, c, u), v)
  {
    if v == [] {
      assert u + v == u;
    } else {
      var n := |v| - 1;
      assert (u + v)[..|u + v| - 1] == u + v[..n];
      FeedConcat(r, c, u, v[..n]);
    }
  }

  lemma {:induction false} FeedZeros<G(!new)>(r: Ring<G>, n: nat)
    requires Additive(r)
    ensures Feed(r, r.zero, Zeros(r, n)) == r.zero
  {
    if n > 0 {
      assert Zeros(r, n)[..n - 1] == Zeros(r, n - 1);
      FeedZeros(r, n - 1);
    }
  }

  lemma {:induction false} NonzeroStays<G(!new)>(r: Ring<G>, small: G -> bool, c: G, n: nat)
    requires Additive(r) && Invertible(r, small) && small(c) && c != r.zero
    ensures var p := Feed(r, c, Zeros(r, n)); small(p) && p != r.zero
  {
    if n > 0 {
      assert Zeros(r, n)[..n - 1] == Zeros(r, n - 1);
      NonzeroStays(r, small, c, n - 1);
    }
  }

  /** The last symbols add to the remainder that zeros in their place would leave. */
  lemma FeedTail<G(!new)>(r: Ring<G>, c: G, x: seq<G>, s: seq<G>)
    requires Additive(r)
    ensures Feed(r, c, x + s) == r.plus(Feed(r, c, x + Zeros(r, |s|)), Feed(r, r.zero, s))
  {
    var z := Zeros(r, |x|);
    var u, v := x + Zeros(r, |s|), z + s;
    assert Sum(r, u, v) == x + s;
    FeedSum(r, c, u, r.zero, v);
    FeedConcat(r, r.zero, z, s);
    FeedZeros(r, |x|);
  }

  /** Sequences that leave the same remainder, and differ only in a stretch w, cancel to remainder zero there. */
  lemma DifferenceVanishes<G(!new)>(r: Ring<G>, small: G -> bool, c: G, u: seq<G>, v: seq<G>, i: nat, j: nat)
    requires Additive(r) && Invertible(r, small)
    requires |u| == |v| && i <= j <= |u| && u[..i] == v[..i] && u[j..] == v[j..]
    requires Feed(r, c, u) == Feed(r, c, v)
    requires small(Feed(r, r.zero, Sum(r, u[i..j], v[i..j])))
    ensures Feed(r, r.zero, Sum(r, u[i..j], v[i..j])) == r.zero
  {
    var w, n := Sum(r, u[i..j], v[i..j]), |u|;
    FeedSum(r, c, u, c, v);
    assert r.plus(c, c) == r.zero;
    SumOutside(r, u, v, i, j);
    FeedConcat(r, r.zero, Zeros(r, i) + w, Zeros(r, n - j));
    FeedConcat(r, r.zero, Zeros(r, i), w);
    FeedZeros(r, i);
    var p := Feed(r, r.zero, w);
    if p != r.zero {
      NonzeroStays(r, small, p, n - j);
    }
  }

  lemma SumOutside<G(!new)>(r: Ring<G>, u: seq<G>, v: seq<G>, i: nat, j: nat)
    requires Additive(r) && |u| == |v| && i <= j <= |u| && u[..i] == v[..i] && u[j..] == v[j..]
    ensures Sum(r, u, v) == Zeros(r, i) + Sum(r, u[i..j], v[i..j]) + Zeros(r, |u| - j)
  {
    var d, e := Sum(r, u, v), Zeros(r, i) + Sum(r, u[i..j], v[i..j]) + Zeros(r, |u| - j);
    forall k | 0 <= k < |u| ensures d[k] == e[k] {
      if k < i {
        assert u[..i][k] == v[..i][k];
      } else if k >= j {
        assert u[j..][k - j] == v[j..][k - j];
      }
    }
  }
}
