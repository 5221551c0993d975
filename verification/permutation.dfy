/** Index permutations: scattering a sequence by a permutation (`make_permutation`),
    inverting a permutation, and permuting the columns of a matrix. */
module Permutations {
  import opened Common
  import opened Linalg

  /** `p` is a bijection on `0 .. |p|-1` (a `perm_t` the decoder may use). */
  predicate IsPermutation(p: seq<nat>) {
    && (forall i :: 0 <= i < |p| ==> p[i] < |p|)
    && (forall i, j :: 0 <= i < j < |p| ==> p[i] != p[j])
  }

  lemma {:induction false} ImageSize(p: seq<nat>, t: nat)
    requires IsPermutation(p) && t <= |p|
    ensures |set i | 0 <= i < t :: p[i]| == t
  {
    if t > 0 {
      ImageSize(p, t - 1);
      var before := set i | 0 <= i < t - 1 :: p[i];
      assert (set i | 0 <= i < t :: p[i]) == before + {p[t - 1]};
      assert p[t - 1] !in before;
    }
  }

  /** Pigeonhole: a permutation takes every value in its range. */
  lemma Onto(p: seq<nat>)
    requires IsPermutation(p)
    ensures forall j :: 0 <= j < |p| ==> j in p
  {
    var n := |p|;
    var image := set i | 0 <= i < n :: p[i];
    var range := set i | 0 <= i < n :: Iota(n)[i];
    ImageSize(p, n);
    ImageSize(Iota(n), n);
    forall i | 0 <= i < n
      ensures p[i] in range
    {
      assert Iota(n)[p[i]] == p[i];
    }
    assert image <= range;
    assert range * image == image;
    assert |range - image| == 0;
    forall j | 0 <= j < n
      ensures j in p
    {
      assert Iota(n)[j] in range;
      assert j in image;
    }
  }

  /** The index at which `p` holds `j`. */
  function Position(p: seq<nat>, j: nat): (i: nat)
    requires j in p
    ensures i < |p| && p[i] == j
  {
    if p[0] == j then 0 else 1 + Position(p[1..], j)
  }

  /** `make_permutation(p, v)`: the sequence `r` with `r[p[i]] == v[i]`. */
  function Apply<T>(p: seq<nat>, v: seq<T>): (r: seq<T>)
    requires IsPermutation(p) && |p| == |v|
    ensures |r| == |v|
    ensures forall i :: 0 <= i < |v| ==> r[p[i]] == v[i]
  {
    Onto(p);
    seq(|v|, j requires 0 <= j < |v| => v[Position(p, j)])
  }

  /** `Apply(p, v)` is the only sequence that puts `v[i]` at `p[i]` for every `i`. */
  lemma ApplyUnique<T>(p: seq<nat>, v: seq<T>, r: seq<T>)
    requires IsPermutation(p) && |p| == |v| == |r|
    requires forall i :: 0 <= i < |v| ==> r[p[i]] == v[i]
    ensures r == Apply(p, v)
  {
    Onto(p);
    forall j | 0 <= j < |r|
      ensures r[j] == Apply(p, v)[j]
    {
      var i := Position(p, j);
      assert r[p[i]] == v[i];
    }
  }

  /** Writing `v[i]` to slot `p[i]` keeps the slots written before: they are different. */
  lemma ScatterStep<T>(p: seq<nat>, v: seq<T>, res: seq<T>, i: nat)
    requires IsPermutation(p) && |p| == |v| == |res| && i < |v|
    requires forall t :: 0 <= t < i ==> res[p[t]] == v[t]
    ensures forall t :: 0 <= t <= i ==> res[p[i] := v[i]][p[t]] == v[t]
  {
    forall t | 0 <= t <= i
      ensures res[p[i] := v[i]][p[t]] == v[t]
    {
      if t < i {
        assert p[t] != p[i];
      }
    }
  }

  /** The scatter loop of `make_permutation`. Every slot of `res` is overwritten,
      so its initial contents do not matter. */
  method MakePermutation<T>(p: seq<nat>, v: seq<T>) returns (res: seq<T>)
    requires IsPermutation(p) && |p| == |v|
    ensures |res| == |v|
    ensures forall i :: 0 <= i < |v| ==> res[p[i]] == v[i]
    ensures res == Apply(p, v)
  {
    res := v;
    var i := 0;
    while i < |v|
      invariant 0 <= i <= |v| && |res| == |v|
      invariant forall t :: 0 <= t < i ==> res[p[t]] == v[t]
    {
      ScatterStep(p, v, res, i);
      res := res[p[i] := v[i]];
      i := i + 1;
    }
    ApplyUnique(p, v, res);
  }

  /** The identity permutation. */
  lemma IotaIsPermutation(n: nat)
    ensures IsPermutation(Iota(n))
  {
  }

  lemma ApplyIdentity<T>(v: seq<T>)
    ensures IsPermutation(Iota(|v|))
    ensures Apply(Iota(|v|), v) == v
  {
    ApplyUnique(Iota(|v|), v, v);
  }

  /** `invert_permutation(p)`: scatter the indices `0 .. |p|-1` by `p`. */
  function Invert(p: seq<nat>): (q: seq<nat>)
    requires IsPermutation(p)
    ensures |q| == |p|
    ensures forall i :: 0 <= i < |p| ==> q[p[i]] == i
    ensures IsPermutation(q)
  {
    var q := Apply(p, Iota(|p|));
    Onto(p);
    assert forall j :: 0 <= j < |q| ==> q[j] == Position(p, j);
    q
  }

  /** `invert_permutation`: entry `p[i]` of the result receives `i`. */
  method InvertPermutation(p: seq<nat>) returns (q: seq<nat>)
    requires IsPermutation(p)
    ensures q == Invert(p)
  {
    q := seq(|p|, _ => 0);
    var i := 0;
    while i < |p|
      invariant 0 <= i <= |p| && |q| == |p|
      invariant forall t :: 0 <= t < i ==> q[p[t]] == Iota(|p|)[t]
    {
      ScatterStep(p, Iota(|p|), q, i);
      q := q[p[i] := i];
      i := i + 1;
    }
    ApplyUnique(p, Iota(|p|), q);
    ApplyUnique(p, Iota(|p|), Invert(p));
  }

  /** The inverse undoes `p` from the other side as well. */
  lemma InvertRight(p: seq<nat>)
    requires IsPermutation(p)
    ensures forall j :: 0 <= j < |p| ==> p[Invert(p)[j]] == j
  {
    Onto(p);
    forall j | 0 <= j < |p|
      ensures p[Invert(p)[j]] == j
    {
      var i := Position(p, j);
      assert Invert(p)[p[i]] == i;
    }
  }

  lemma InvertInvolutive(p: seq<nat>)
    requires IsPermutation(p)
    ensures Invert(Invert(p)) == p
  {
    var q := Invert(p);
    InvertRight(p);
    ApplyUnique(q, Iota(|q|), p);
  }

  /** Scattering by `p` and then by its inverse gives back the input. */
  lemma ApplyRoundTrip<T>(p: seq<nat>, v: seq<T>)
    requires IsPermutation(p) && |p| == |v|
    ensures Apply(Invert(p), Apply(p, v)) == v
  {
    var q := Invert(p);
    var w := Apply(p, v);
    InvertRight(p);
    forall i | 0 <= i < |v|
      ensures v[q[i]] == w[i]
    {
      assert w[p[q[i]]] == v[q[i]];
    }
    ApplyUnique(q, w, v);
  }

  /** ... and in the other order. */
  lemma ApplyRoundTripInverse<T>(p: seq<nat>, v: seq<T>)
    requires IsPermutation(p) && |p| == |v|
    ensures Apply(p, Apply(Invert(p), v)) == v
  {
    ApplyRoundTrip(Invert(p), v);
    InvertInvolutive(p);
  }

  /** Scattering by the inverse of `p` gathers by `p`: position `t` receives `v[p[t]]`. */
  lemma ApplyInvertAt<T>(p: seq<nat>, v: seq<T>)
    requires IsPermutation(p) && |p| == |v|
    ensures forall t :: 0 <= t < |p| ==> Apply(Invert(p), v)[t] == v[p[t]]
  {
    var q := Invert(p);
    forall t | 0 <= t < |p|
      ensures Apply(q, v)[t] == v[p[t]]
    {
      assert q[p[t]] == t;
    }
  }

  /** `p` without its last entry, renumbered to close the gap that entry leaves. */
  function DropLast(p: seq<nat>): (p': seq<nat>)
    requires IsPermutation(p) && |p| > 0
    ensures |p'| == |p| - 1 && IsPermutation(p')
    ensures forall i :: 0 <= i < |p'| ==> p'[i] == if p[i] > p[|p| - 1] then p[i] - 1 else p[i]
  {
    var n := |p| - 1;
    var j0 := p[n];
    assert forall i :: 0 <= i < n ==> p[i] != j0;
    seq(n, i requires 0 <= i < n => if p[i] > j0 then p[i] - 1 else p[i])
  }

  /** Scattering `v` is scattering all but its last element by `DropLast(p)` and
      inserting the last element at `p[|p|-1]`. */
  lemma ApplySplit<T>(p: seq<nat>, v: seq<T>)
    requires IsPermutation(p) && |p| == |v| > 0
    ensures var n := |v| - 1; var s := Apply(DropLast(p), v[..n]);
            Apply(p, v) == s[..p[n]] + [v[n]] + s[p[n]..]
  {
    var n := |v| - 1;
    var j0 := p[n];
    var p' := DropLast(p);
    var s := Apply(p', v[..n]);
    var r := s[..j0] + [v[n]] + s[j0..];
    InsertIndex(s, j0, v[n]);
    forall i | 0 <= i < |v|
      ensures r[p[i]] == v[i]
    {
      if i < n {
        assert v[..n][i] == v[i] && s[p'[i]] == v[..n][i];
        if p[i] < j0 {
          assert p'[i] == p[i];
        } else {
          assert p[i] != j0 && p'[i] == p[i] - 1;
        }
      }
    }
    ApplyUnique(p, v, r);
  }

  /** Where each element lands when `x` is inserted at `j`. */
  lemma InsertIndex<T>(s: seq<T>, j: nat, x: T)
    requires j <= |s|
    ensures |s[..j] + [x] + s[j..]| == |s| + 1
    ensures forall k :: 0 <= k < j ==> (s[..j] + [x] + s[j..])[k] == s[k]
    ensures (s[..j] + [x] + s[j..])[j] == x
    ensures forall k :: j < k <= |s| ==> (s[..j] + [x] + s[j..])[k] == s[k - 1]
  {
  }

  /** Inserting one element adds it to the multiset. */
  lemma MultisetInsert<T>(s: seq<T>, j: nat, x: T)
    requires j <= |s|
    ensures multiset(s[..j] + [x] + s[j..]) == multiset(s) + multiset{x}
  {
    assert s == s[..j] + s[j..];
  }

  /** Scattering only rearranges: the multiset of elements is unchanged. */
  lemma {:induction false} ApplyMultiset<T>(p: seq<nat>, v: seq<T>)
    requires IsPermutation(p) && |p| == |v|
    ensures multiset(Apply(p, v)) == multiset(v)
    decreases |v|
  {
    if |v| > 0 {
      var n := |v| - 1;
      var q := DropLast(p);
      var s := Apply(q, v[..n]);
      calc {
        multiset(Apply(p, v));
        { ApplySplit(p, v); }
        multiset(s[..p[n]] + [v[n]] + s[p[n]..]);
        { MultisetInsert(s, p[n], v[n]); }
        multiset(s) + multiset{v[n]};
        { ApplyMultiset(q, v[..n]); }
        multiset(v[..n]) + multiset{v[n]};
        { assert v == v[..n] + [v[n]]; }
        multiset(v);
      }
    }
  }

  /** Scattering commutes with XOR. */
  lemma ApplyAdd(p: seq<nat>, a: Vec, b: Vec)
    requires IsPermutation(p) && |p| == |a| == |b|
    ensures Apply(p, Add(a, b)) == Add(Apply(p, a), Apply(p, b))
  {
    ApplyUnique(p, Add(a, b), Add(Apply(p, a), Apply(p, b)));
  }

  lemma ApplyZero(p: seq<nat>)
    requires IsPermutation(p)
    ensures Apply(p, Zero(|p|)) == Zero(|p|)
  {
    ApplyUnique(p, Zero(|p|), Zero(|p|));
  }

  /** `shuffle_cols(m, p)`: permute the columns of every row; an empty matrix is returned as is. */
  function ShuffleCols(m: Matrix, p: seq<nat>): (r: Matrix)
    requires |m| > 0 ==> IsPermutation(p)
    requires Rectangular(m, |p|)
    ensures |r| == |m| && Rectangular(r, |p|)
    ensures forall i :: 0 <= i < |m| ==> r[i] == Apply(p, m[i])
  {
    if |m| == 0 then m
    else seq(|m|, i requires 0 <= i < |m| => Apply(p, m[i]))
  }

  /** `shuffle_cols`: an empty matrix is returned as is, and
      otherwise each row is scattered by `p` in turn. */
  method ShuffleColumns(m: Matrix, p: seq<nat>) returns (r: Matrix)
    requires |m| > 0 ==> IsPermutation(p)
    requires Rectangular(m, |p|)
    ensures r == ShuffleCols(m, p)
  {
    if |m| == 0 {
      return m;
    }
    r := m;
    var i := 0;
    while i < |m|
      invariant 0 <= i <= |m| && |r| == |m|
      invariant forall t :: 0 <= t < i ==> r[t] == Apply(p, m[t])
    {
      var row := MakePermutation(p, m[i]);
      r := r[i := row];
      i := i + 1;
    }
  }

  /** Permuting columns commutes with encoding. */
  lemma {:induction false} ShuffleColsLinComb(c: Vec, m: Matrix, p: seq<nat>)
    requires IsPermutation(p) && |c| == |m| && Rectangular(m, |p|)
    ensures LinComb(c, ShuffleCols(m, p), |p|) == Apply(p, LinComb(c, m, |p|))
    decreases |c|
  {
    var n := |p|;
    if |c| == 0 {
      ApplyZero(p);
    } else {
      var k := |c| - 1;
      assert ShuffleCols(m, p)[..k] == ShuffleCols(m[..k], p);
      ShuffleColsLinComb(c[..k], m[..k], p);
      if c[k] {
        ApplyAdd(p, LinComb(c[..k], m[..k], n), m[k]);
      }
    }
  }

  lemma ShuffleColsMul(v: Vec, m: Matrix, p: seq<nat>)
    requires IsPermutation(p) && |v| == |m| >= 1 && Rectangular(m, |p|)
    ensures Mul(v, ShuffleCols(m, p)) == Apply(p, Mul(v, m))
  {
    ShuffleColsLinComb(v, m, p);
  }

  /** Permuting columns keeps the rows independent. */
  lemma ShuffleColsFullRank(m: Matrix, p: seq<nat>)
    requires IsPermutation(p) && FullRank(m, |p|)
    ensures FullRank(ShuffleCols(m, p), |p|)
  {
    var n := |p|;
    forall c | |c| == |m| && c != Zero(|m|)
      ensures LinComb(c, ShuffleCols(m, p), n) != Zero(n)
    {
      var y := LinComb(c, m, n);
      ShuffleColsLinComb(c, m, p);
      ApplyRoundTrip(p, y);
      ApplyZero(Invert(p));
    }
  }

  /** A codeword of the column-shuffled code, unshuffled, is a codeword of the original. */
  lemma ShuffleColsRowSpace(m: Matrix, p: seq<nat>, z: Vec)
    requires IsPermutation(p) && Rectangular(m, |p|)
    requires InRowSpace(ShuffleCols(m, p), |p|, z)
    ensures |z| == |p|
    ensures InRowSpace(m, |p|, Apply(Invert(p), z))
  {
    var n := |p|;
    var c :| |c| == |m| && LinComb(c, ShuffleCols(m, p), n) == z;
    ShuffleColsLinComb(c, m, p);
    ApplyRoundTrip(p, LinComb(c, m, n));
  }

  /** ... and every codeword of the original, shuffled, is one of the shuffled code. */
  lemma RowSpaceShuffleCols(m: Matrix, p: seq<nat>, y: Vec)
    requires IsPermutation(p) && Rectangular(m, |p|)
    requires InRowSpace(m, |p|, y)
    ensures InRowSpace(ShuffleCols(m, p), |p|, Apply(p, y))
  {
    var c :| |c| == |m| && LinComb(c, m, |p|) == y;
    ShuffleColsLinComb(c, m, p);
  }
}
