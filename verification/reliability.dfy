/** The soft-decision side of the decoder: splitting a received message into hard
    decisions and reliabilities (`decompose`), the correlation discrepancy of a
    candidate codeword (`calc_metric`), and the most-reliable-first index order. */
module Reliability {
  import opened Common
  import opened Linalg
  import opened Permutations

  /** A hard decision `alpha` (true for a negative sample) and its reliability `beta`. */
  datatype Decomposition = Decomposition(alpha: Vec, beta: seq<real>)

  function Abs(x: real): (r: real)
    ensures r >= 0.0 && (r == x || r == -x)
  {
    if x < 0.0 then -x else x
  }

  /** `decompose`: the sign of each sample becomes a bit, its magnitude a reliability. */
  function Decompose(msg: seq<real>): (d: Decomposition)
    ensures |d.alpha| == |msg| && |d.beta| == |msg|
    ensures forall i :: 0 <= i < |msg| ==> d.alpha[i] == (msg[i] < 0.0) && d.beta[i] == Abs(msg[i])
    ensures forall i :: 0 <= i < |msg| ==> d.beta[i] >= 0.0
  {
    Decomposition(seq(|msg|, i requires 0 <= i < |msg| => msg[i] < 0.0),
                  seq(|msg|, i requires 0 <= i < |msg| => Abs(msg[i])))
  }

  /** The soft message a hard decision and its reliabilities stand for. */
  function Recompose(d: Decomposition): (msg: seq<real>)
    requires |d.alpha| == |d.beta|
    ensures |msg| == |d.alpha|
  {
    seq(|d.alpha|, i requires 0 <= i < |d.alpha| => if d.alpha[i] then -d.beta[i] else d.beta[i])
  }

  /** Decomposition loses nothing. */
  lemma DecomposeRoundTrip(msg: seq<real>)
    ensures Recompose(Decompose(msg)) == msg
  {
  }

  /** What each position contributes to the metric: its reliability when `x` disagrees
      with the hard decision there, nothing otherwise. */
  function Costs(alpha: Vec, beta: seq<real>, x: Vec): (c: seq<real>)
    requires |alpha| == |beta| == |x|
    ensures |c| == |x|
    ensures forall i :: 0 <= i < |x| ==> c[i] == if alpha[i] != x[i] then beta[i] else 0.0
  {
    seq(|x|, i requires 0 <= i < |x| => if alpha[i] != x[i] then beta[i] else 0.0)
  }

  /** Left-to-right sum, in the order `calc_metric` accumulates. */
  function Sum(s: seq<real>): real
  {
    if |s| == 0 then 0.0 else Sum(s[..|s| - 1]) + s[|s| - 1]
  }

  /** The metric `calc_metric` returns: the total reliability of the disagreeing positions. */
  function Metric(alpha: Vec, beta: seq<real>, x: Vec): (r: real)
    requires |alpha| == |beta| == |x|
    ensures (forall i :: 0 <= i < |beta| ==> beta[i] >= 0.0) ==> r >= 0.0
  {
    CostsNonnegative(alpha, beta, x);
    Sum(Costs(alpha, beta, x))
  }

  lemma CostsNonnegative(alpha: Vec, beta: seq<real>, x: Vec)
    requires |alpha| == |beta| == |x|
    ensures (forall i :: 0 <= i < |beta| ==> beta[i] >= 0.0) ==> Sum(Costs(alpha, beta, x)) >= 0.0
  {
    if forall i :: 0 <= i < |beta| ==> beta[i] >= 0.0 {
      SumNonnegative(Costs(alpha, beta, x));
    }
  }

  lemma {:induction false} SumAppend(a: seq<real>, b: seq<real>)
    ensures Sum(a + b) == Sum(a) + Sum(b)
    decreases |b|
  {
    if |b| > 0 {
      assert (a + b)[..|a + b| - 1] == a + b[..|b| - 1];
      SumAppend(a, b[..|b| - 1]);
    } else {
      assert a + b == a;
    }
  }

  lemma {:induction false} SumNonnegative(s: seq<real>)
    requires forall i :: 0 <= i < |s| ==> s[i] >= 0.0
    ensures Sum(s) >= 0.0
    decreases |s|
  {
    if |s| > 0 {
      SumNonnegative(s[..|s| - 1]);
    }
  }

  /** A sum of nonnegative terms vanishes only when every term does. */
  lemma {:induction false} SumZero(s: seq<real>)
    requires forall i :: 0 <= i < |s| ==> s[i] >= 0.0
    ensures Sum(s) == 0.0 <==> forall i :: 0 <= i < |s| ==> s[i] == 0.0
    decreases |s|
  {
    if |s| > 0 {
      SumZero(s[..|s| - 1]);
      SumNonnegative(s[..|s| - 1]);
    }
  }

  /** Reordering the terms does not change the sum. */
  lemma {:induction false} SumApply(p: seq<nat>, s: seq<real>)
    requires IsPermutation(p) && |p| == |s|
    ensures Sum(Apply(p, s)) == Sum(s)
    decreases |s|
  {
    if |s| > 0 {
      var n := |s| - 1;
      var q := DropLast(p);
      var t := Apply(q, s[..n]);
      calc {
        Sum(Apply(p, s));
        { ApplySplit(p, s); }
        Sum(t[..p[n]] + [s[n]] + t[p[n]..]);
        { SumInsert(t, p[n], s[n]); }
        Sum(t) + s[n];
        { SumApply(q, s[..n]); }
        Sum(s[..n]) + s[n];
        Sum(s);
      }
    }
  }

  /** Inserting a term anywhere adds it to the sum. */
  lemma SumInsert(t: seq<real>, j: nat, x: real)
    requires j <= |t|
    ensures Sum(t[..j] + [x] + t[j..]) == Sum(t) + x
  {
    SumAppend(t[..j] + [x], t[j..]);
    SumAppend(t[..j], [x]);
    SumAppend(t[..j], t[j..]);
    assert t == t[..j] + t[j..];
    assert Sum([x]) == x by {
      assert [x][..0] == [];
    }
  }

  lemma MetricNonnegative(alpha: Vec, beta: seq<real>, x: Vec)
    requires |alpha| == |beta| == |x|
    requires forall i :: 0 <= i < |beta| ==> beta[i] >= 0.0
    ensures Metric(alpha, beta, x) >= 0.0
  {
    SumNonnegative(Costs(alpha, beta, x));
  }

  /** With nonnegative reliabilities the metric is zero exactly when `x` disagrees with
      the hard decision only at zero-reliability positions; with positive
      reliabilities, exactly when `x` is the hard decision. */
  lemma MetricZero(alpha: Vec, beta: seq<real>, x: Vec)
    requires |alpha| == |beta| == |x|
    requires forall i :: 0 <= i < |beta| ==> beta[i] >= 0.0
    ensures Metric(alpha, beta, x) == 0.0 <==> forall i :: 0 <= i < |x| && alpha[i] != x[i] ==> beta[i] == 0.0
    ensures (forall i :: 0 <= i < |beta| ==> beta[i] > 0.0) ==> (Metric(alpha, beta, x) == 0.0 <==> x == alpha)
  {
    var c := Costs(alpha, beta, x);
    SumZero(c);
    assert forall i :: 0 <= i < |x| ==> (c[i] == 0.0 <==> alpha[i] == x[i] || beta[i] == 0.0);
  }

  /** Reordering the positions of all three arguments alike keeps the metric. */
  lemma MetricApply(p: seq<nat>, alpha: Vec, beta: seq<real>, x: Vec)
    requires IsPermutation(p) && |p| == |alpha| == |beta| == |x|
    ensures Metric(Apply(p, alpha), Apply(p, beta), Apply(p, x)) == Metric(alpha, beta, x)
  {
    var c := Costs(alpha, beta, x);
    ApplyUnique(p, c, Costs(Apply(p, alpha), Apply(p, beta), Apply(p, x)));
    SumApply(p, c);
  }

  /** `calc_metric`: the accumulation loop over the positions. */
  method CalcMetric(alpha: Vec, beta: seq<real>, x: Vec) returns (metric: real)
    requires |alpha| == |beta| == |x|
    ensures metric == Metric(alpha, beta, x)
    ensures (forall i :: 0 <= i < |beta| ==> beta[i] >= 0.0) ==> metric >= 0.0
  {
    ghost var c := Costs(alpha, beta, x);
    metric := 0.0;
    var i := 0;
    while i < |alpha|
      invariant 0 <= i <= |alpha|
      invariant metric == Sum(c[..i])
    {
      assert c[..i + 1][..i] == c[..i];
      if alpha[i] != x[i] {
        metric := metric + beta[i];
      }
      i := i + 1;
    }
    assert c[..|alpha|] == c;
    if forall i :: 0 <= i < |beta| ==> beta[i] >= 0.0 {
      MetricNonnegative(alpha, beta, x);
    }
  }

  /** `order[t]` is the original index of the `t`-th most reliable position. */
  predicate IsReliabilityOrder(order: seq<nat>, beta: seq<real>) {
    |order| == |beta| && IsPermutation(order) &&
    forall i, j :: 0 <= i < j < |order| ==> beta[order[i]] >= beta[order[j]]
  }

  /** Moving the samples into reliability order leaves them non-increasing. */
  lemma ReliabilityOrderSorts(order: seq<nat>, beta: seq<real>)
    requires IsReliabilityOrder(order, beta)
    ensures forall i, j :: 0 <= i < j < |beta| ==> Apply(Invert(order), beta)[i] >= Apply(Invert(order), beta)[j]
  {
    ApplyInvertAt(order, beta);
  }

  /** The first `i` entries of `order` are sorted most reliable first. */
  predicate SortedPrefix(order: seq<nat>, beta: seq<real>, i: nat)
    requires i <= |order| && forall t :: 0 <= t < |order| ==> order[t] < |beta|
  {
    forall a, b :: 0 <= a < b < i ==> beta[order[a]] >= beta[order[b]]
  }

  lemma SwapPermutation(p: seq<nat>, a: nat, b: nat)
    requires IsPermutation(p) && a < |p| && b < |p|
    ensures IsPermutation(p[a := p[b]][b := p[a]])
  {
    var q := p[a := p[b]][b := p[a]];
    forall i, j | 0 <= i < j < |q|
      ensures q[i] != q[j]
    {
    }
  }

  /** While `order[i]` moves left it sits at `j`: the other entries up to `i` stay
      sorted, and the moving entry is more reliable than everything it has passed. */
  predicate Sifting(order: seq<nat>, beta: seq<real>, i: nat, j: nat)
    requires |order| == |beta| && IsPermutation(order) && j <= i < |order|
  {
    (forall a, b :: 0 <= a < b <= i && a != j && b != j ==> beta[order[a]] >= beta[order[b]])
    && (forall a, b :: 0 <= a < j < b <= i ==> beta[order[a]] >= beta[order[b]])
    && (forall b :: j < b <= i ==> beta[order[j]] > beta[order[b]])
  }

  /** Swapping the moving entry with a less reliable left neighbour keeps sifting. */
  lemma SiftSwap(order: seq<nat>, beta: seq<real>, i: nat, j: nat)
    requires |order| == |beta| && IsPermutation(order) && 0 < j <= i < |order|
    requires Sifting(order, beta, i, j) && beta[order[j - 1]] < beta[order[j]]
    ensures IsPermutation(order[j - 1 := order[j]][j := order[j - 1]])
    ensures Sifting(order[j - 1 := order[j]][j := order[j - 1]], beta, i, j - 1)
  {
    SwapPermutation(order, j - 1, j);
  }

  /** Once the left neighbour is at least as reliable, the prefix through `i` is sorted. */
  lemma SiftStop(order: seq<nat>, beta: seq<real>, i: nat, j: nat)
    requires |order| == |beta| && IsPermutation(order) && j <= i < |order|
    requires Sifting(order, beta, i, j) && (j == 0 || beta[order[j - 1]] >= beta[order[j]])
    ensures SortedPrefix(order, beta, i + 1)
  {
  }

  /** One pass of insertion: move `order[i]` left past every less reliable entry. */
  method Sift(order0: seq<nat>, beta: seq<real>, i: nat) returns (order: seq<nat>)
    requires |order0| == |beta| && IsPermutation(order0) && i < |order0|
    requires SortedPrefix(order0, beta, i)
    ensures |order| == |beta| && IsPermutation(order)
    ensures SortedPrefix(order, beta, i + 1)
  {
    order := order0;
    var j := i;
    while j > 0 && beta[order[j - 1]] < beta[order[j]]
      invariant 0 <= j <= i && |order| == |beta| && IsPermutation(order)
      invariant Sifting(order, beta, i, j)
    {
      SiftSwap(order, beta, i, j);
      order := order[j - 1 := order[j]][j := order[j - 1]];
      j := j - 1;
    }
    SiftStop(order, beta, i, j);
  }

  /** The indices `0 .. n-1` that `osd` pairs with the reliabilities before sorting. */
  method Indices(n: nat) returns (order: seq<nat>)
    ensures order == Iota(n) && IsPermutation(order)
  {
    order := [];
    while |order| < n
      invariant |order| <= n && order == Iota(|order|)
    {
      order := order + [|order|];
    }
    IotaIsPermutation(n);
  }

  /** An insertion sort producing a most-reliable-first order; `osd` uses
      `std::ranges::sort`, and any order meeting `IsReliabilityOrder` serves the decoder. */
  method SortByReliability(beta: seq<real>) returns (order: seq<nat>)
    ensures IsReliabilityOrder(order, beta)
  {
    order := Indices(|beta|);
    var i := 0;
    while i < |beta|
      invariant 0 <= i <= |beta| && |order| == |beta| && IsPermutation(order)
      invariant SortedPrefix(order, beta, i)
    {
      order := Sift(order, beta, i);
      i := i + 1;
    }
  }
}
