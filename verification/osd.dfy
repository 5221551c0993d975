/** Ordered statistics decoding (`osd`): sort the positions by reliability, bring the
    permuted generator matrix into systematic form, re-encode the hard decisions on
    the most reliable independent positions with every flip pattern of weight at most
    `w_max`, and keep the candidate codeword with the smallest metric. */
module Decoder {
  import opened Common
  import opened Linalg
  import opened Permutations
  import opened Elimination
  import opened Combinations
  import opened Reliability
  import opened FlipPatterns

  // ----- the sorted, systematic frame -----

  /** The decoder's state after sorting and elimination, in sorted coordinates:
      hard decisions, reliabilities, the reduced matrix, its pivot columns, and the
      hard decisions on the pivots (`inf_set`). */
  datatype Frame = Frame(alpha: Vec, beta: seq<real>, rows: Matrix, pivots: seq<nat>, seed: Vec)

  /** `rows` is systematic on `pivots`, one pivot per row, and `seed` reads `alpha` there. */
  predicate Prepared(f: Frame) {
    |f.rows| >= 1 && |f.alpha| == |f.beta| && Rectangular(f.rows, |f.alpha|)
    && |f.pivots| == |f.rows| && |f.seed| == |f.rows|
    && Bounded(f.pivots, |f.alpha|)
    && (forall q, t :: 0 <= q < |f.pivots| && 0 <= t < |f.rows| ==> f.rows[t][f.pivots[q]] == (t == q))
    && (forall q :: 0 <= q < |f.seed| ==> f.seed[q] == f.alpha[f.pivots[q]])
  }

  /** For a full-rank matrix the elimination finds one pivot column per row. */
  lemma GaussSystematic(m: Matrix, n: nat)
    requires |m| >= 1 && Rectangular(m, n) && FullRank(m, n)
    ensures |Gauss(m).rows| == |m| && Rectangular(Gauss(m).rows, n) && |Gauss(m).pivots| == |m|
    ensures Bounded(Gauss(m).pivots, n)
    ensures forall q, t :: 0 <= q < |m| && 0 <= t < |m| ==> Gauss(m).rows[t][Gauss(m).pivots[q]] == (t == q)
  {
    assert |m[0]| == n;
  }

  /** Permuting the columns of a full-rank matrix and eliminating gives a systematic form. */
  lemma ShuffledSystematic(g: Matrix, pi: seq<nat>)
    requires |g| >= 1 && IsPermutation(pi) && Rectangular(g, |pi|) && FullRank(g, |pi|)
    ensures var e := Gauss(ShuffleCols(g, pi));
            |e.rows| == |g| && Rectangular(e.rows, |pi|) && |e.pivots| == |g| && Bounded(e.pivots, |pi|)
            && forall q, t :: 0 <= q < |g| && 0 <= t < |g| ==> e.rows[t][e.pivots[q]] == (t == q)
  {
    ShuffleColsFullRank(g, pi);
    GaussSystematic(ShuffleCols(g, pi), |pi|);
  }

  /** The entries of `v` at the positions `idx`, in that order. */
  function Gather<T>(v: seq<T>, idx: seq<nat>): (r: seq<T>)
    requires Bounded(idx, |v|)
    ensures |r| == |idx|
    ensures forall q :: 0 <= q < |idx| ==> r[q] == v[idx[q]]
  {
    seq(|idx|, q requires 0 <= q < |idx| => v[idx[q]])
  }

  /** Reading a scattered word at `idx` is reading the original word at the positions
      the permutation sends `idx` back to. */
  lemma GatherApply<T>(order: seq<nat>, y: seq<T>, idx: seq<nat>)
    requires IsPermutation(order) && |order| == |y| && Bounded(idx, |y|)
    ensures Bounded(Gather(order, idx), |y|)
    ensures Gather(Apply(Invert(order), y), idx) == Gather(y, Gather(order, idx))
  {
    ApplyInvertAt(order, y);
  }

  /** Everything `osd` does before its search: decompose the samples, move them and the
      columns of `g` into the order given by `order` (most reliable first), eliminate,
      and read the hard decisions on the pivots. */
  function Prepare(msg: seq<real>, g: Matrix, order: seq<nat>): (f: Frame)
    requires |g| >= 1 && Rectangular(g, |msg|) && FullRank(g, |msg|)
    requires IsPermutation(order) && |order| == |msg|
    ensures Prepared(f) && |f.alpha| == |msg| && |f.rows| == |g|
  {
    var d := Decompose(msg);
    var pi := Invert(order);
    ShuffledSystematic(g, pi);
    var e := Gauss(ShuffleCols(g, pi));
    var alpha := Apply(pi, d.alpha);
    Frame(alpha, Apply(pi, d.beta), e.rows, e.pivots, Gather(alpha, e.pivots))
  }

  /** The bits of `y` on the pivot columns. */
  function InfoBits(f: Frame, y: Vec): (r: Vec)
    requires Prepared(f) && |y| == |f.alpha|
    ensures |r| == |f.rows|
  {
    Gather(y, f.pivots)
  }

  /** The candidate codeword for a flip pattern: re-encode the flipped seed. */
  function Candidate(f: Frame, s: seq<nat>): (x: Vec)
    requires Prepared(f) && Bounded(s, |f.seed|)
    ensures |x| == |f.alpha|
  {
    Mul(Flip(f.seed, s), f.rows)
  }

  function Cost(f: Frame, s: seq<nat>): real
    requires Prepared(f) && Bounded(s, |f.seed|)
  {
    Metric(f.alpha, f.beta, Candidate(f, s))
  }

  /** In systematic form, a codeword is the encoding of its own pivot bits. */
  lemma CodewordFromInfo(f: Frame, y: Vec)
    requires Prepared(f) && InRowSpace(f.rows, |f.alpha|, y)
    ensures |y| == |f.alpha|
    ensures y == Mul(InfoBits(f, y), f.rows)
  {
    var n := |f.alpha|;
    var c :| |c| == |f.rows| && LinComb(c, f.rows, n) == y;
    forall q | 0 <= q < |f.pivots|
      ensures y[f.pivots[q]] == c[q]
    {
      LinCombUnitColumn(c, f.rows, n, f.pivots[q], q);
    }
    assert InfoBits(f, y) == c;
  }

  /** A candidate carries the flipped seed on the pivots and is a codeword. */
  lemma CandidateInfo(f: Frame, s: seq<nat>)
    requires Prepared(f) && Bounded(s, |f.seed|)
    ensures InfoBits(f, Candidate(f, s)) == Flip(f.seed, s)
    ensures InRowSpace(f.rows, |f.alpha|, Candidate(f, s))
  {
    var n := |f.alpha|;
    var c := Flip(f.seed, s);
    forall q | 0 <= q < |f.pivots|
      ensures Candidate(f, s)[f.pivots[q]] == c[q]
    {
      LinCombUnitColumn(c, f.rows, n, f.pivots[q], q);
    }
  }

  // ----- the search -----

  /** The best candidate so far (`best_code`, `best_metric`); `NoCandidate` stands for
      the initial state whose metric is `DBL_MAX`. */
  datatype Incumbent = NoCandidate | Incumbent(code: Vec, metric: real)

  /** The incumbent update in the body of `osd`'s inner search loop: a candidate replaces
      the incumbent only when its metric is strictly smaller. */
  function Consider(b: Incumbent, x: Vec, m: real): (r: Incumbent)
    ensures r.Incumbent?
    ensures r.metric <= m
    ensures b.Incumbent? ==> r.metric <= b.metric
  {
    if b.NoCandidate? || m < b.metric then Incumbent(x, m) else b
  }

  /** The incumbent's code, if any, has the codeword length of the frame. */
  predicate Fits(f: Frame, b: Incumbent) {
    b.Incumbent? ==> |b.code| == |f.alpha|
  }

  /** Run the update over the candidates of `pats`, in order, starting from `b`. */
  function Search(f: Frame, b: Incumbent, pats: seq<seq<nat>>): (r: Incumbent)
    requires Prepared(f) && Fits(f, b) && AllBounded(pats, |f.seed|)
    ensures Fits(f, r)
    ensures |pats| > 0 || b.Incumbent? ==> r.Incumbent?
    decreases |pats|
  {
    if |pats| == 0 then b
    else
      var n := |pats| - 1;
      Consider(Search(f, b, pats[..n]), Candidate(f, pats[n]), Cost(f, pats[n]))
  }

  lemma {:induction false} SearchAppend(f: Frame, b: Incumbent, p1: seq<seq<nat>>, p2: seq<seq<nat>>)
    requires Prepared(f) && Fits(f, b) && AllBounded(p1, |f.seed|) && AllBounded(p2, |f.seed|)
    ensures AllBounded(p1 + p2, |f.seed|)
    ensures Search(f, b, p1 + p2) == Search(f, Search(f, b, p1), p2)
    decreases |p2|
  {
    if |p2| == 0 {
      assert p1 + p2 == p1;
    } else {
      var n := |p2| - 1;
      assert (p1 + p2)[..|p1 + p2| - 1] == p1 + p2[..n];
      SearchAppend(f, b, p1, p2[..n]);
    }
  }

  /** The index of the first smallest entry. */
  function BestIndex(ms: seq<real>): (i: nat)
    requires |ms| >= 1
    ensures i < |ms|
    ensures forall j :: 0 <= j < |ms| ==> ms[i] <= ms[j]
    ensures forall j :: 0 <= j < i ==> ms[j] > ms[i]
    decreases |ms|
  {
    if |ms| == 1 then 0
    else
      var b := BestIndex(ms[..|ms| - 1]);
      if ms[|ms| - 1] < ms[b] then |ms| - 1 else b
  }

  function CostList(f: Frame, pats: seq<seq<nat>>): (ms: seq<real>)
    requires Prepared(f) && AllBounded(pats, |f.seed|)
    ensures |ms| == |pats|
    ensures forall i :: 0 <= i < |pats| ==> ms[i] == Cost(f, pats[i])
  {
    seq(|pats|, i requires 0 <= i < |pats| => Cost(f, pats[i]))
  }

  /** Appending an entry moves the first minimum there exactly when it is strictly smaller. */
  lemma BestIndexStep(ms: seq<real>)
    requires |ms| >= 2
    ensures var n := |ms| - 1; var i0 := BestIndex(ms[..n]);
            BestIndex(ms) == if ms[n] < ms[i0] then n else i0
  {
  }

  /** The search keeps the first candidate of smallest metric: the strict `<` means a
      later candidate replaces the incumbent only when it is strictly better. */
  lemma {:induction false} SearchIsFirstBest(f: Frame, pats: seq<seq<nat>>)
    requires Prepared(f) && AllBounded(pats, |f.seed|) && |pats| >= 1
    ensures var i := BestIndex(CostList(f, pats));
            Search(f, NoCandidate, pats) == Incumbent(Candidate(f, pats[i]), Cost(f, pats[i]))
    decreases |pats|
  {
    var n := |pats| - 1;
    var ms := CostList(f, pats);
    if n > 0 {
      var prev := pats[..n];
      SearchIsFirstBest(f, prev);
      assert CostList(f, prev) == ms[..n];
      var i0 := BestIndex(ms[..n]);
      assert prev[i0] == pats[i0];
      BestIndexStep(ms);
    } else {
      assert pats[..0] == [];
    }
  }

  /** The first of `pats` whose candidate costs least. */
  function FirstBest(f: Frame, pats: seq<seq<nat>>): (s: seq<nat>)
    requires Prepared(f) && AllBounded(pats, |f.seed|) && |pats| >= 1
    ensures Bounded(s, |f.seed|)
  {
    pats[BestIndex(CostList(f, pats))]
  }

  /** The first pattern of least cost costs no more than any other. */
  lemma MinBeats(f: Frame, pats: seq<seq<nat>>, s: seq<nat>)
    requires Prepared(f) && AllBounded(pats, |f.seed|) && s in pats
    ensures Bounded(s, |f.seed|)
    ensures Cost(f, pats[BestIndex(CostList(f, pats))]) <= Cost(f, s)
  {
    var j :| 0 <= j < |pats| && pats[j] == s;
    var ms := CostList(f, pats);
    assert ms[BestIndex(ms)] <= ms[j];
  }

  // ----- the search in sorted coordinates -----

  /** The outcome of the two search loops of `osd` over all flip patterns of weight
      below `wmax + 1`, in sorted coordinates. */
  function Best(f: Frame, wmax: nat): (x: Vec)
    requires Prepared(f) && wmax <= |f.rows|
    ensures |x| == |f.alpha|
  {
    Search(f, NoCandidate, Patterns(|f.rows|, wmax + 1)).code
  }

  /** The pattern whose candidate the search keeps: the first one of least cost. */
  function BestPattern(f: Frame, wmax: nat): (s: seq<nat>)
    requires Prepared(f) && wmax <= |f.rows|
    ensures Bounded(s, |f.seed|)
  {
    FirstBest(f, Patterns(|f.rows|, wmax + 1))
  }

  /** The kept pattern flips at most `wmax` distinct pivots. */
  lemma BestPatternShape(f: Frame, wmax: nat)
    requires Prepared(f) && wmax <= |f.rows|
    ensures |BestPattern(f, wmax)| <= wmax && IsCombination(BestPattern(f, wmax), |BestPattern(f, wmax)|, |f.rows|)
  {
    var pats := Patterns(|f.rows|, wmax + 1);
    var i := BestIndex(CostList(f, pats));
    assert BestPattern(f, wmax) == pats[i];
    PatternsAll(|f.rows|, wmax + 1, pats[i]);
  }

  /** The search keeps the candidate of the first pattern of least cost. */
  lemma BestChoice(f: Frame, wmax: nat)
    requires Prepared(f) && wmax <= |f.rows|
    ensures Best(f, wmax) == Candidate(f, BestPattern(f, wmax))
  {
    SearchIsFirstBest(f, Patterns(|f.rows|, wmax + 1));
  }

  /** Every pattern of at most `wmax` flips costs at least as much as the kept one. */
  lemma BestBeats(f: Frame, wmax: nat, s: seq<nat>)
    requires Prepared(f) && wmax <= |f.rows|
    requires |s| <= wmax && IsCombination(s, |s|, |f.rows|)
    ensures Cost(f, BestPattern(f, wmax)) <= Cost(f, s)
  {
    var pats := Patterns(|f.rows|, wmax + 1);
    PatternsAll(|f.rows|, wmax + 1, s);
    MinBeats(f, pats, s);
  }

  /** The search result is a codeword of the reduced matrix whose information bits
      differ from the hard decisions in at most `wmax` places. */
  lemma BestIsNear(f: Frame, wmax: nat)
    requires Prepared(f) && wmax <= |f.rows|
    ensures InRowSpace(f.rows, |f.alpha|, Best(f, wmax))
    ensures |Differences(InfoBits(f, Best(f, wmax)), f.seed)| <= wmax
  {
    var s := BestPattern(f, wmax);
    BestPatternShape(f, wmax);
    BestChoice(f, wmax);
    CandidateInfo(f, s);
    DifferencesOfFlip(f.seed, s);
  }

  /** No codeword of the reduced matrix within `wmax` flips has a smaller metric. */
  lemma BestIsOptimal(f: Frame, wmax: nat, z: Vec)
    requires Prepared(f) && wmax <= |f.rows|
    requires InRowSpace(f.rows, |f.alpha|, z)
    requires |z| == |f.alpha| && |Differences(InfoBits(f, z), f.seed)| <= wmax
    ensures Metric(f.alpha, f.beta, Best(f, wmax)) <= Metric(f.alpha, f.beta, z)
  {
    var s := Differences(InfoBits(f, z), f.seed);
    FlipDifferences(InfoBits(f, z), f.seed);
    CodewordFromInfo(f, z);
    assert Candidate(f, s) == z;
    BestBeats(f, wmax, s);
    BestChoice(f, wmax);
  }

  /** The seed is the hard decisions read on the pivots. */
  lemma SeedIsInfo(f: Frame)
    requires Prepared(f)
    ensures InfoBits(f, f.alpha) == f.seed
  {
  }

  /** When the hard decision is a codeword, the empty pattern re-encodes it at no cost. */
  lemma EmptyPatternKeeps(f: Frame)
    requires Prepared(f) && InRowSpace(f.rows, |f.alpha|, f.alpha)
    requires forall i :: 0 <= i < |f.beta| ==> f.beta[i] >= 0.0
    ensures Candidate(f, []) == f.alpha && Cost(f, []) == 0.0
  {
    CodewordFromInfo(f, f.alpha);
    SeedIsInfo(f);
    MetricZero(f.alpha, f.beta, f.alpha);
  }

  /** A hard decision that already is a codeword wins: its pattern, the empty one,
      comes first and costs nothing, and no cost is negative. */
  lemma BestKeepsCodeword(f: Frame, wmax: nat)
    requires Prepared(f) && wmax <= |f.rows|
    requires forall i :: 0 <= i < |f.beta| ==> f.beta[i] >= 0.0
    requires InRowSpace(f.rows, |f.alpha|, f.alpha)
    ensures Best(f, wmax) == f.alpha
  {
    var pats := Patterns(|f.rows|, wmax + 1);
    EmptyPatternKeeps(f);
    PatternsFirst(|f.rows|, wmax + 1);
    BestChoice(f, wmax);
    SearchIsFirstBest(f, pats);
    var ms := CostList(f, pats);
    var i := BestIndex(ms);
    MetricNonnegative(f.alpha, f.beta, Candidate(f, pats[i]));
    assert ms[0] == 0.0;
    assert i == 0;
  }

  // ----- the decoder -----

  /** What `osd` requires: a nonempty generator matrix with one column per sample and
      independent rows (the elimination asserts it finds a pivot for every row). */
  ghost predicate Admissible(msg: seq<real>, g: Matrix) {
    |g| >= 1 && Rectangular(g, |msg|) && FullRank(g, |msg|)
  }

  /** `osd(msg, g, w_max)`, given the order `std::ranges::sort` produced. The weight loop
      stops at the size of the information set: no flip pattern is heavier than that,
      and `osd`'s own loop goes on to build combinations with more elements than
      positions, on which `next()` never fails (`Combinations.WideNeverStops`). */
  function Osd(msg: seq<real>, g: Matrix, wmax: nat, order: seq<nat>): (x: Vec)
    requires Admissible(msg, g)
    requires IsReliabilityOrder(order, Decompose(msg).beta)
    ensures |x| == |msg|
    ensures InRowSpace(g, |msg|, x)
  {
    var f := Prepare(msg, g, order);
    var w := Min(wmax, |g|);
    BestIsNear(f, w);
    FrameBack(msg, g, order, Best(f, w));
    Apply(order, Best(f, w))
  }

  /** The original positions of the information set: the pivot columns, read back
      through the sort. */
  function InformationSet(msg: seq<real>, g: Matrix, order: seq<nat>): (info: seq<nat>)
    requires |g| >= 1 && Rectangular(g, |msg|) && FullRank(g, |msg|)
    requires IsPermutation(order) && |order| == |msg|
    ensures |info| == |g| && Bounded(info, |msg|)
  {
    Gather(order, Prepare(msg, g, order).pivots)
  }

  /** Reading a word in sorted coordinates on the pivots is reading it on the
      information set in original coordinates. */
  lemma FrameInfo(msg: seq<real>, g: Matrix, order: seq<nat>, y: Vec)
    requires |g| >= 1 && Rectangular(g, |msg|) && FullRank(g, |msg|)
    requires IsPermutation(order) && |order| == |msg| && |y| == |msg|
    ensures InfoBits(Prepare(msg, g, order), Apply(Invert(order), y)) == Gather(y, InformationSet(msg, g, order))
    ensures Prepare(msg, g, order).seed == Gather(Decompose(msg).alpha, InformationSet(msg, g, order))
  {
    var f := Prepare(msg, g, order);
    var d := Decompose(msg);
    GatherApply(order, y, f.pivots);
    GatherApply(order, d.alpha, f.pivots);
    assert f.seed == Gather(Apply(Invert(order), d.alpha), f.pivots);
  }

  /** Codewords of `g`, moved into sorted coordinates, are codewords of the reduced matrix. */
  lemma FrameCodeword(msg: seq<real>, g: Matrix, order: seq<nat>, y: Vec)
    requires |g| >= 1 && Rectangular(g, |msg|) && FullRank(g, |msg|)
    requires IsPermutation(order) && |order| == |msg|
    requires InRowSpace(g, |msg|, y)
    ensures |y| == |msg|
    ensures InRowSpace(Prepare(msg, g, order).rows, |msg|, Apply(Invert(order), y))
  {
    var pi := Invert(order);
    var sg := ShuffleCols(g, pi);
    var c :| |c| == |g| && LinComb(c, g, |msg|) == y;
    RowSpaceShuffleCols(g, pi, y);
    assert |sg[0]| == |msg|;
    assert SameRowSpace(sg, Gauss(sg).rows, |msg|);
  }

  /** Codewords of the reduced matrix, moved back to original coordinates, are
      codewords of `g`. */
  lemma FrameBack(msg: seq<real>, g: Matrix, order: seq<nat>, z: Vec)
    requires |g| >= 1 && Rectangular(g, |msg|) && FullRank(g, |msg|)
    requires IsPermutation(order) && |order| == |msg|
    requires InRowSpace(Prepare(msg, g, order).rows, |msg|, z)
    ensures |z| == |msg|
    ensures InRowSpace(g, |msg|, Apply(order, z))
  {
    var pi := Invert(order);
    var sg := ShuffleCols(g, pi);
    var c :| |c| == |g| && LinComb(c, Gauss(sg).rows, |msg|) == z;
    assert |sg[0]| == |msg|;
    assert SameRowSpace(sg, Gauss(sg).rows, |msg|);
    ShuffleColsRowSpace(g, pi, z);
    InvertInvolutive(order);
  }

  /** The metric does not depend on the coordinates it is computed in. */
  lemma FrameMetric(msg: seq<real>, g: Matrix, order: seq<nat>, z: Vec)
    requires |g| >= 1 && Rectangular(g, |msg|) && FullRank(g, |msg|)
    requires IsPermutation(order) && |order| == |msg| && |z| == |msg|
    ensures var f := Prepare(msg, g, order);
            Metric(Decompose(msg).alpha, Decompose(msg).beta, Apply(order, z)) == Metric(f.alpha, f.beta, z)
  {
    var d := Decompose(msg);
    MetricApply(Invert(order), d.alpha, d.beta, Apply(order, z));
    ApplyRoundTrip(order, z);
  }

  /** On the information set the decoded word differs from the hard decision in at
      most `wmax` positions. */
  lemma OsdWithinReach(msg: seq<real>, g: Matrix, wmax: nat, order: seq<nat>)
    requires Admissible(msg, g)
    requires IsReliabilityOrder(order, Decompose(msg).beta)
    ensures var info := InformationSet(msg, g, order);
            |Differences(Gather(Osd(msg, g, wmax, order), info), Gather(Decompose(msg).alpha, info))| <= wmax
  {
    var f := Prepare(msg, g, order);
    var z := Best(f, Min(wmax, |g|));
    BestIsNear(f, Min(wmax, |g|));
    ApplyRoundTrip(order, z);
    FrameInfo(msg, g, order, Apply(order, z));
  }

  /** No codeword that is within reach of the hard decision on the information set
      has a smaller metric than the decoded word: ordered statistics decoding of
      order `wmax`. */
  lemma OsdIsBestWithinReach(msg: seq<real>, g: Matrix, wmax: nat, order: seq<nat>, y: Vec)
    requires Admissible(msg, g)
    requires IsReliabilityOrder(order, Decompose(msg).beta)
    requires |y| == |msg| && InRowSpace(g, |msg|, y)
    requires var info := InformationSet(msg, g, order);
             |Differences(Gather(y, info), Gather(Decompose(msg).alpha, info))| <= wmax
    ensures var d := Decompose(msg);
            Metric(d.alpha, d.beta, Osd(msg, g, wmax, order)) <= Metric(d.alpha, d.beta, y)
  {
    var f := Prepare(msg, g, order);
    var w := Min(wmax, |g|);
    var z := Apply(Invert(order), y);
    var info := InformationSet(msg, g, order);
    FrameCodeword(msg, g, order, y);
    FrameInfo(msg, g, order, y);
    DifferencesBound(Gather(y, info), Gather(Decompose(msg).alpha, info));
    BestIsOptimal(f, w, z);
    FrameMetric(msg, g, order, Best(f, w));
    FrameMetric(msg, g, order, z);
    ApplyRoundTripInverse(order, y);
  }

  /** Allowing more flips never makes the decoded word worse. */
  lemma OsdMonotone(msg: seq<real>, g: Matrix, w1: nat, w2: nat, order: seq<nat>)
    requires Admissible(msg, g) && w1 <= w2
    requires IsReliabilityOrder(order, Decompose(msg).beta)
    ensures var d := Decompose(msg);
            Metric(d.alpha, d.beta, Osd(msg, g, w2, order)) <= Metric(d.alpha, d.beta, Osd(msg, g, w1, order))
  {
    OsdWithinReach(msg, g, w1, order);
    OsdIsBestWithinReach(msg, g, w2, order, Osd(msg, g, w1, order));
  }

  /** When the hard decision already is a codeword, it is returned unchanged, for
      every flip budget. */
  lemma OsdKeepsCodeword(msg: seq<real>, g: Matrix, wmax: nat, order: seq<nat>)
    requires Admissible(msg, g)
    requires IsReliabilityOrder(order, Decompose(msg).beta)
    requires InRowSpace(g, |msg|, Decompose(msg).alpha)
    ensures Osd(msg, g, wmax, order) == Decompose(msg).alpha
  {
    var d := Decompose(msg);
    var f := Prepare(msg, g, order);
    FrameCodeword(msg, g, order, d.alpha);
    ApplyInvertAt(order, d.beta);
    BestKeepsCodeword(f, Min(wmax, |g|));
    ApplyRoundTripInverse(order, d.alpha);
  }

  /** With a flip budget of at least the number of rows every information word is
      tried, so the decoder returns a codeword of least metric among all codewords. */
  lemma OsdIsMaximumLikelihood(msg: seq<real>, g: Matrix, wmax: nat, order: seq<nat>, y: Vec)
    requires Admissible(msg, g) && wmax >= |g|
    requires IsReliabilityOrder(order, Decompose(msg).beta)
    requires |y| == |msg| && InRowSpace(g, |msg|, y)
    ensures var d := Decompose(msg);
            Metric(d.alpha, d.beta, Osd(msg, g, wmax, order)) <= Metric(d.alpha, d.beta, y)
  {
    var info := InformationSet(msg, g, order);
    DifferencesBound(Gather(y, info), Gather(Decompose(msg).alpha, info));
    OsdIsBestWithinReach(msg, g, wmax, order, y);
  }

  // ----- a worked example -----

  /** The only nonzero combination of a single row. */
  lemma NonzeroBit(c: Vec)
    requires |c| == 1
    ensures c == Zero(1) || c == [true]
  {
    if c[0] {
      assert c == [true];
    } else {
      assert c == Zero(1);
    }
  }

  /** The one-row matrix of the example has rank one. */
  lemma ExampleRank()
    ensures FullRank([[true, true, false]], 3)
    ensures InRowSpace([[true, true, false]], 3, [true, true, false])
  {
    var g := [[true, true, false]];
    assert LinComb([true], g, 3) == Add(Zero(3), g[0]) == [true, true, false];
    forall c | |c| == |g| && c != Zero(|g|)
      ensures LinComb(c, g, 3) != Zero(3)
    {
      NonzeroBit(c);
      assert LinComb(c, g, 3)[0];
    }
  }

  /** The example's samples: two confident ones, then one that is nearly an erasure. */
  lemma ExampleSamples()
    ensures Decompose([-0.9, -0.8, 0.1]).alpha == [true, true, false]
    ensures IsReliabilityOrder([0, 1, 2], Decompose([-0.9, -0.8, 0.1]).beta)
  {
    var d := Decompose([-0.9, -0.8, 0.1]);
    assert d.beta == [0.9, 0.8, 0.1];
    IotaIsPermutation(3);
    assert Iota(3) == [0, 1, 2];
  }

  /** A code of length three with one generator row: the hard decision of the two
      negative samples and the positive one is already a codeword, so it is decoded
      as is. */
  lemma DecodeExample()
    ensures var msg := [-0.9, -0.8, 0.1];
            var g := [[true, true, false]];
            Admissible(msg, g) && IsReliabilityOrder([0, 1, 2], Decompose(msg).beta) &&
            Osd(msg, g, 0, [0, 1, 2]) == [true, true, false]
  {
    ExampleRank();
    ExampleSamples();
    OsdKeepsCodeword([-0.9, -0.8, 0.1], [[true, true, false]], 0, [0, 1, 2]);
  }

  /** The same input with a flip budget of two, more than the one row of `g`: the
      search stops at weight one and still returns the codeword. */
  lemma DecodeWideExample()
    ensures var msg := [-0.9, -0.8, 0.1];
            var g := [[true, true, false]];
            Admissible(msg, g) && Osd(msg, g, 2, [0, 1, 2]) == [true, true, false]
  {
    ExampleRank();
    ExampleSamples();
    OsdKeepsCodeword([-0.9, -0.8, 0.1], [[true, true, false]], 2, [0, 1, 2]);
  }
}
