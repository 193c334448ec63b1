/**
 * Direction vectors of an N-dimensional board.
 *
 * A direction is a vector over {-1, 0, 1}. The engine enumerates all of them
 * as a Cartesian product in which every axis runs through the steps
 * `[1, 0, -1]` and the first axis varies slowest. This module defines that
 * enumeration and the set of vectors the engine keeps: of every pair `v`,
 * `-v` of non-zero vectors, the one that comes first in the enumeration,
 * which is the one whose first non-zero component is `+1`.
 */
module Directions {

  /** The per-axis steps, in the order the enumeration visits them. */
  const Steps: seq<int> := [1, 0, -1]

  /** 3 to the power `n`. */
  function Pow3(n: nat): nat
  {
    if n == 0 then 1 else 3 * Pow3(n - 1)
  }

  /** `v` is a vector of length `n` over {-1, 0, 1}. */
  predicate InCube(v: seq<int>, n: nat)
  {
    |v| == n && forall i :: 0 <= i < n ==> v[i] in Steps
  }

  /** The all-zero vector of length `n`. */
  function Zero(n: nat): seq<int>
  {
    seq(n, _ => 0)
  }

  /** The inverse direction. */
  function Neg(v: seq<int>): (w: seq<int>)
    ensures |w| == |v|
  {
    seq(|v|, i requires 0 <= i < |v| => -v[i])
  }

  /** The first non-zero component of `v`, or 0 for a zero vector. */
  function Lead(v: seq<int>): int
  {
    if |v| == 0 then 0 else if v[0] != 0 then v[0] else Lead(v[1..])
  }

  /** Every vector of `vs`, extended in front by `d`. */
  function Prepend(d: int, vs: seq<seq<int>>): (r: seq<seq<int>>)
    ensures |r| == |vs|
    ensures forall i :: 0 <= i < |vs| ==> r[i] == [d] + vs[i]
  {
    seq(|vs|, i requires 0 <= i < |vs| => [d] + vs[i])
  }

  /** All vectors of {-1, 0, 1}^n, in the order of the engine's Cartesian product. */
  function Cube(n: nat): (vs: seq<seq<int>>)
    ensures |vs| == Pow3(n)
  {
    if n == 0 then [[]]
    else
      var c := Cube(n - 1);
      Prepend(Steps[0], c) + Prepend(Steps[1], c) + Prepend(Steps[2], c)
  }

  /** Which third of the enumeration a leading step falls into. */
  function Third(d: int): nat
  {
    if d == 1 then 0 else if d == 0 then 1 else 2
  }

  /** Position of a vector of {-1, 0, 1}^n in `Cube(n)`. */
  function Rank(v: seq<int>, n: nat): nat
    requires InCube(v, n)
  {
    if n == 0 then 0 else Third(v[0]) * Pow3(n - 1) + Rank(v[1..], n - 1)
  }

  /** The direction set the engine keeps for `n` axes. */
  function Canonical(n: nat): set<seq<int>>
  {
    set v | v in Cube(n) && Lead(v) == 1
  }

  /** The vectors of {-1, 0, 1}^n other than zero. */
  function NonZero(n: nat): set<seq<int>>
  {
    set v | v in Cube(n) && v != Zero(n)
  }

  // ----- the enumeration -----

  /** Entry `b * 3^(n-1) + j` of `Cube(n)` is entry `j` of `Cube(n - 1)` led by step `b`. */
  lemma CubeSplit(n: nat, blk: nat, j: nat)
    requires n > 0 && blk < 3 && j < Pow3(n - 1)
    ensures blk * Pow3(n - 1) + j < |Cube(n)|
    ensures Cube(n)[blk * Pow3(n - 1) + j] == [Steps[blk]] + Cube(n - 1)[j]
  {
    var c := Cube(n - 1);
    var p := |c|;
    assert blk * p == (if blk == 0 then 0 else if blk == 1 then p else p + p);
    var a, m, z := Prepend(Steps[0], c), Prepend(Steps[1], c), Prepend(Steps[2], c);
    assert Cube(n) == a + m + z;
  }

  /** The tail of a vector of the cube lies in the next smaller cube. */
  lemma TailInCube(v: seq<int>, n: nat)
    requires n > 0 && InCube(v, n)
    ensures InCube(v[1..], n - 1) && v == [v[0]] + v[1..]
  {
    forall i | 0 <= i < n - 1 ensures v[1..][i] in Steps {
      assert v[1..][i] == v[i + 1];
    }
  }

  /** Leading a vector of the smaller cube by a step keeps it in the cube and shifts its rank by its third. */
  lemma LeadBy(n: nat, blk: nat, t: seq<int>)
    requires n > 0 && blk < 3 && InCube(t, n - 1)
    ensures InCube([Steps[blk]] + t, n)
    ensures Rank([Steps[blk]] + t, n) == blk * Pow3(n - 1) + Rank(t, n - 1)
  {
    var v := [Steps[blk]] + t;
    assert v[1..] == t;
    assert forall i :: 1 <= i < n ==> v[i] == t[i - 1];
  }

  /** Every enumerated vector lies in the cube and `Rank` finds it at its position. */
  lemma {:induction false} CubeAt(n: nat, k: nat)
    requires k < |Cube(n)|
    ensures InCube(Cube(n)[k], n) && Rank(Cube(n)[k], n) == k
    decreases n
  {
    if n > 0 {
      var p := Pow3(n - 1);
      var blk, j;
      if k < p {
        blk, j := 0, k;
      } else if k < p + p {
        blk, j := 1, k - p;
      } else {
        blk, j := 2, k - p - p;
      }
      assert blk * p + j == k;
      CubeSplit(n, blk, j);
      CubeAt(n - 1, j);
      LeadBy(n, blk, Cube(n - 1)[j]);
    }
  }

  /** Every vector of the cube is enumerated, at the position its rank gives. */
  lemma {:induction false} CubeHas(v: seq<int>, n: nat)
    requires InCube(v, n)
    ensures Rank(v, n) < Pow3(n) && Cube(n)[Rank(v, n)] == v
    decreases n
  {
    if n > 0 {
      TailInCube(v, n);
      var t := v[1..];
      CubeHas(t, n - 1);
      CubeSplit(n, Third(v[0]), Rank(t, n - 1));
    }
  }

  /** No vector is enumerated twice. */
  lemma CubeDistinct(n: nat, i: nat, j: nat)
    requires i < |Cube(n)| && j < |Cube(n)| && Cube(n)[i] == Cube(n)[j]
    ensures i == j
  {
    CubeAt(n, i);
    CubeAt(n, j);
  }

  /** A vector is enumerated exactly when it lies in the cube. */
  lemma CubeMembers(v: seq<int>, n: nat)
    ensures v in Cube(n) <==> InCube(v, n)
  {
    if v in Cube(n) {
      var k :| 0 <= k < |Cube(n)| && Cube(n)[k] == v;
      CubeAt(n, k);
    }
    if InCube(v, n) {
      CubeHas(v, n);
    }
  }

  // ----- inverse directions -----

  /** Inverting twice gives the vector back. */
  lemma NegNeg(v: seq<int>)
    ensures Neg(Neg(v)) == v
  {
    assert forall i :: 0 <= i < |v| ==> Neg(Neg(v))[i] == v[i];
  }

  /** The inverse of a vector of the cube lies in the cube. */
  lemma NegInCube(v: seq<int>, n: nat)
    requires InCube(v, n)
    ensures InCube(Neg(v), n)
  {
    assert forall i :: 0 <= i < n ==> Neg(v)[i] == -v[i];
  }

  /** The inverse of a direction leads with the opposite sign. */
  lemma {:induction false} LeadNeg(v: seq<int>)
    ensures Lead(Neg(v)) == -Lead(v)
  {
    if |v| > 0 {
      assert Neg(v)[1..] == Neg(v[1..]);
      LeadNeg(v[1..]);
    }
  }

  /** Only the zero vector has no leading sign. */
  lemma {:induction false} LeadZero(v: seq<int>, n: nat)
    requires |v| == n
    ensures Lead(v) == 0 <==> v == Zero(n)
  {
    if n > 0 {
      LeadZero(v[1..], n - 1);
      assert Zero(n) == [0] + Zero(n - 1);
      assert v == [v[0]] + v[1..];
    }
  }

  /** The leading sign of a vector of the cube is one of the steps. */
  lemma {:induction false} LeadInSteps(v: seq<int>, n: nat)
    requires InCube(v, n)
    ensures Lead(v) in Steps
  {
    if n > 0 && v[0] == 0 {
      TailInCube(v, n);
      LeadInSteps(v[1..], n - 1);
    }
  }

  /** Every rank is a position of the enumeration. */
  lemma {:induction false} RankBound(v: seq<int>, n: nat)
    requires InCube(v, n)
    ensures Rank(v, n) < Pow3(n)
  {
    CubeHas(v, n);
  }

  /** Of a vector leading with -1 and its inverse, the inverse is enumerated first. */
  lemma {:induction false} InverseComesFirst(v: seq<int>, n: nat)
    requires InCube(v, n) && Lead(v) == -1
    ensures InCube(Neg(v), n) && Rank(Neg(v), n) < Rank(v, n)
  {
    NegInCube(v, n);
    var w := Neg(v);
    TailInCube(v, n);
    assert w[1..] == Neg(v[1..]);
    NegInCube(v[1..], n - 1);
    if v[0] == -1 {
      RankBound(w[1..], n - 1);
    } else {
      InverseComesFirst(v[1..], n - 1);
    }
  }

  // ----- the engine's filter over the enumeration -----

  /**
   * After the first `i` vectors of the enumeration `c` were offered, `D`
   * holds exactly those of them that do not lead with -1.
   */
  ghost predicate KeptUpTo(D: set<seq<int>>, c: seq<seq<int>>, i: nat)
    requires i <= |c|
  {
    && (forall v :: v in D ==> v in c[..i])
    && (forall k :: 0 <= k < i ==> (c[k] in D <==> Lead(c[k]) != -1))
  }

  /**
   * The next vector of the enumeration is new, and its inverse has already
   * been kept exactly when the vector leads with -1.
   */
  lemma InverseKept(D: set<seq<int>>, n: nat, i: nat)
    requires i < |Cube(n)| && KeptUpTo(D, Cube(n), i)
    ensures forall k :: 0 <= k < i ==> Cube(n)[k] != Cube(n)[i]
    ensures Neg(Cube(n)[i]) in D <==> Lead(Cube(n)[i]) == -1
  {
    var c := Cube(n);
    var v := c[i];
    CubeAt(n, i);
    forall k | 0 <= k < i ensures c[k] != v {
      CubeAt(n, k);
    }
    LeadInSteps(v, n);
    LeadNeg(v);
    if Lead(v) == -1 {
      InverseComesFirst(v, n);
      CubeHas(Neg(v), n);
      assert c[Rank(Neg(v), n)] == Neg(v);
    } else if Lead(v) == 0 {
      LeadZero(v, n);
      LeadZero(Neg(v), n);
    }
  }

  /** Offering a new vector, and keeping it unless its inverse is kept, extends `KeptUpTo`. */
  lemma KeepStep(D: set<seq<int>>, c: seq<seq<int>>, i: nat)
    requires i < |c| && KeptUpTo(D, c, i)
    requires forall k :: 0 <= k < i ==> c[k] != c[i]
    requires Neg(c[i]) in D <==> Lead(c[i]) == -1
    ensures KeptUpTo(if Neg(c[i]) in D then D else D + {c[i]}, c, i + 1)
  {
    var v := c[i];
    var D' := if Neg(v) in D then D else D + {v};
    assert v !in c[..i];
    assert v in D' <==> Lead(v) != -1;
    forall w | w in D' ensures w in c[..i + 1] {
      if w != v {
        assert w in c[..i];
      }
    }
    forall k | 0 <= k < i + 1 ensures c[k] in D' <==> Lead(c[k]) != -1 {
      if k < i {
        assert c[k] in D <==> Lead(c[k]) != -1;
      }
    }
  }

  /** Once every vector was offered, dropping the zero vector leaves the canonical set. */
  lemma KeptAll(D: set<seq<int>>, n: nat)
    requires KeptUpTo(D, Cube(n), |Cube(n)|)
    ensures D - {Zero(n)} == Canonical(n)
  {
    var c := Cube(n);
    assert c[..|c|] == c;
    forall v ensures v in D - {Zero(n)} <==> v in Canonical(n) {
      CubeMembers(v, n);
      if v in c {
        LeadInSteps(v, n);
        LeadZero(v, n);
      }
    }
  }

  // ----- counting -----

  /** A sequence without repetitions has as many distinct elements as entries. */
  lemma {:induction false} DistinctCard(s: seq<seq<int>>)
    requires forall i, j :: 0 <= i < j < |s| ==> s[i] != s[j]
    ensures |set x | x in s| == |s|
  {
    if |s| > 0 {
      var t := s[..|s| - 1];
      DistinctCard(t);
      assert (set x | x in s) == (set x | x in t) + {s[|s| - 1]};
    }
  }

  /**
   * `S` is closed under inversion and has no self-inverse element, and `D`
   * holds exactly one of every pair `v`, `-v` of `S`.
   */
  ghost predicate Halves(S: set<seq<int>>, D: set<seq<int>>)
  {
    && D <= S
    && (forall v {:trigger Neg(v)} :: v in S ==> Neg(v) in S && Neg(v) != v)
    && (forall v {:trigger Neg(v)} :: v in S ==> (v in D <==> Neg(v) !in D))
  }

  /** A set that holds one of every pair of `S` is half as large as `S`. */
  lemma {:induction false} HalfOfPairs(S: set<seq<int>>, D: set<seq<int>>)
    requires Halves(S, D)
    ensures |S| == 2 * |D|
    decreases |S|
  {
    if S != {} {
      var v :| v in S;
      var x := if v in D then v else Neg(v);
      assert x in D;
      var y := Neg(x);
      PairRemoved(S, D, x);
      var S1 := S - {x};
      assert |S1| == |S| - 1;
      assert y in S1;
      var S', D' := S1 - {y}, D - {x};
      assert S' == S - {x, y};
      assert |S'| == |S1| - 1;
      assert |D'| == |D| - 1;
      HalfOfPairs(S', D');
    }
  }

  /** Taking one pair out of `S` and `D` keeps `Halves`. */
  lemma PairRemoved(S: set<seq<int>>, D: set<seq<int>>, x: seq<int>)
    requires Halves(S, D) && x in D
    ensures Neg(x) != x && Neg(x) in S
    ensures Halves(S - {x, Neg(x)}, D - {x})
  {
    NegNeg(x);
    forall v | v in S - {x, Neg(x)}
      ensures Neg(v) != x && Neg(v) != Neg(x)
    {
      NegNeg(v);
    }
  }

  /** `n` axes have `3^n - 1` non-zero directions. */
  lemma NonZeroCount(n: nat)
    ensures Zero(n) in Cube(n)
    ensures |NonZero(n)| == Pow3(n) - 1
  {
    var c := Cube(n);
    forall i, j | 0 <= i < j < |c| ensures c[i] != c[j] {
      if c[i] == c[j] { CubeDistinct(n, i, j); }
    }
    DistinctCard(c);
    assert InCube(Zero(n), n);
    CubeMembers(Zero(n), n);
    assert NonZero(n) == (set x | x in c) - {Zero(n)};
  }

  /** Of every non-zero direction and its inverse, exactly one is canonical. */
  lemma ExactlyOneOfPair(v: seq<int>, n: nat)
    requires InCube(v, n) && v != Zero(n)
    ensures v in Canonical(n) <==> Neg(v) !in Canonical(n)
  {
    LeadZero(v, n);
    LeadNeg(v);
    LeadInSteps(v, n);
    NegInCube(v, n);
    CubeMembers(v, n);
    CubeMembers(Neg(v), n);
  }

  /** The canonical set holds non-zero vectors of the cube only. */
  lemma CanonicalMembers(v: seq<int>, n: nat)
    ensures v in Canonical(n) <==> InCube(v, n) && Lead(v) == 1
    ensures v in Canonical(n) ==> v != Zero(n)
  {
    CubeMembers(v, n);
    if |v| == n { LeadZero(v, n); }
  }

  /** The canonical set has exactly `(3^n - 1) / 2` directions. */
  lemma CanonicalCount(n: nat)
    ensures |Canonical(n)| == (Pow3(n) - 1) / 2
  {
    var S, D := NonZero(n), Canonical(n);
    forall v | v in D ensures v in S {
      CanonicalMembers(v, n);
    }
    forall v | v in S
      ensures Neg(v) in S && Neg(v) != v
      ensures v in D <==> Neg(v) !in D
    {
      CubeMembers(v, n);
      NegInCube(v, n);
      CubeMembers(Neg(v), n);
      LeadZero(v, n);
      LeadZero(Neg(v), n);
      LeadNeg(v);
      LeadInSteps(v, n);
      ExactlyOneOfPair(v, n);
    }
    assert Halves(S, D);
    HalfOfPairs(S, D);
    NonZeroCount(n);
  }
}
