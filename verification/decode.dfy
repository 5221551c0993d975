/** The procedure `osd` loop by loop, with the weight loop stopped at the number of
    rows: its two search loops over the flip patterns, the flip-and-restore of the
    information set, and the set-up before them, each proved to compute what the
    functions of `Decoder` describe. */
module Decoding {
  import opened Common
  import opened Linalg
  import opened Permutations
  import opened Elimination
  import opened Combinations
  import opened Reliability
  import opened FlipPatterns
  import opened Decoder

  lemma SplitHead<T>(d: seq<T>, e: seq<T>)
    requires |e| >= 1
    ensures d + e == d + [e[0]] + e[1..]
  {
    assert e == [e[0]] + e[1..];
  }

  lemma SearchSnoc(f: Frame, b: Incumbent, done: seq<seq<nat>>, s: seq<nat>)
    requires Prepared(f) && Fits(f, b) && AllBounded(done, |f.seed|) && Bounded(s, |f.seed|)
    ensures AllBounded(done + [s], |f.seed|)
    ensures Search(f, b, done + [s]) == Consider(Search(f, b, done), Candidate(f, s), Cost(f, s))
  {
    assert (done + [s])[..|done|] == done;
  }

  /** The body of the inner search loop of `osd`, which runs until `next()` fails: flip the hard
      decisions at the listed pivots, re-encode, measure, keep the candidate if it is
      strictly better, and flip back. */
  method TryFlips(f: Frame, inf0: Vec, b0: Incumbent, flips: seq<nat>) returns (inf: Vec, b: Incumbent)
    requires Prepared(f) && Fits(f, b0) && inf0 == f.seed
    requires Bounded(flips, |f.seed|) && StrictlyIncreasing(flips)
    ensures inf == f.seed
    ensures b == Consider(b0, Candidate(f, flips), Cost(f, flips)) && Fits(f, b)
  {
    inf := FlipEach(inf0, flips);
    var x := MulAccumulate(inf, f.rows);
    var metric := CalcMetric(f.alpha, f.beta, x);
    b := b0;
    if b.NoCandidate? || metric < b.metric {
      b := Incumbent(x, metric);
    }
    inf := FlipEach(inf, flips);
    FlipTwice(f.seed, flips);
  }

  /** One pass of the inner search loop, which runs until `next()` fails, over the combinations of `w`
      pivots, from the first one `combination(w, k)` holds to the last. */
  method SearchWeight(f: Frame, b0: Incumbent, w: nat) returns (b: Incumbent)
    requires Prepared(f) && Fits(f, b0) && w <= |f.rows|
    ensures AllBounded(Weight(w, |f.rows|), |f.seed|)
    ensures b == Search(f, b0, Weight(w, |f.rows|))
  {
    var k := |f.rows|;
    var inf := f.seed;
    var c := Init(w, k);
    ghost var all := Weight(w, k);
    ghost var done: seq<seq<nat>> := [];
    assert all == done + Enumerate(c);
    b := b0;
    var more := true;
    while more
      invariant c.Valid() && c.K() == w && c.N() == k
      invariant inf == f.seed
      invariant AllBounded(done, k) && Fits(f, b) && b == Search(f, b0, done)
      invariant more ==> all == done + Enumerate(c)
      invariant !more ==> all == done
      decreases if more then Remaining(c) + 1 else 0
    {
      ValidIsCombination(c);
      var flips := c.Get();
      SearchSnoc(f, b0, done, flips);
      inf, b := TryFlips(f, inf, b, flips);
      ghost var prev := c;
      EnumerateStep(prev);
      SplitHead(done, Enumerate(prev));
      done := done + [flips];
      var ok;
      ok, c := Next(c);
      more := ok;
    }
  }

  /** `b` is what the search holds after every pattern of weight below `w`. */
  predicate Searched(f: Frame, b: Incumbent, w: nat)
    requires Prepared(f) && w <= |f.rows| + 1
  {
    b == Search(f, NoCandidate, Patterns(|f.rows|, w))
  }

  /** Before the outer loop no pattern has been tried. */
  lemma SearchedNone(f: Frame)
    requires Prepared(f)
    ensures Searched(f, NoCandidate, 0)
  {
    assert Patterns(|f.rows|, 0) == [];
  }

  /** After the outer loop the search holds the decoder's result. */
  lemma SearchedAll(f: Frame, b: Incumbent, wmax: nat)
    requires Prepared(f) && wmax <= |f.rows| && Searched(f, b, wmax + 1)
    ensures b.Incumbent? && b.code == Best(f, wmax)
  {
  }

  /** The outer loop of `osd`'s search: the weights `0 .. wmax` in increasing order,
      starting from no candidate (`osd`'s initial metric `DBL_MAX`). */
  method SearchUpTo(f: Frame, wmax: nat) returns (b: Incumbent)
    requires Prepared(f) && wmax <= |f.rows|
    ensures Searched(f, b, wmax + 1)
  {
    b := NoCandidate;
    var w := 0;
    SearchedNone(f);
    while w <= wmax
      invariant w <= wmax + 1 && Searched(f, b, w)
    {
      b := SearchNextWeight(f, b, w);
      w := w + 1;
    }
  }

  /** Both search loops of `osd`, ending with `best_code`. */
  method SearchAll(f: Frame, wmax: nat) returns (best: Vec)
    requires Prepared(f) && wmax <= |f.rows|
    ensures best == Best(f, wmax)
  {
    var b := SearchUpTo(f, wmax);
    SearchedAll(f, b, wmax);
    best := b.code;
  }

  /** One turn of the outer loop: searching the patterns of weight `w` after those of
      smaller weight is searching the patterns of weight up to `w`. */
  method SearchNextWeight(f: Frame, b0: Incumbent, w: nat) returns (b: Incumbent)
    requires Prepared(f) && w <= |f.rows| && Searched(f, b0, w)
    ensures Searched(f, b, w + 1) && b.Incumbent?
  {
    var k := |f.rows|;
    b := SearchWeight(f, b0, w);
    PatternsUnfold(k, w + 1);
    SearchAppend(f, NoCandidate, Patterns(k, w), Weight(w, k));
  }

  /** The loop filling `inf_set`: the hard decisions on the pivot columns. */
  method ReadInfoSet(alpha: Vec, pivots: seq<nat>) returns (inf: Vec)
    requires Bounded(pivots, |alpha|)
    ensures inf == Gather(alpha, pivots)
  {
    inf := [];
    while |inf| < |pivots|
      invariant |inf| <= |pivots|
      invariant forall q :: 0 <= q < |inf| ==> inf[q] == alpha[pivots[q]]
    {
      inf := inf + [alpha[pivots[|inf|]]];
    }
  }

  /** The set-up of `osd` once the sort has fixed the order: invert it, permute the
      samples and the columns, eliminate, and read the information set. */
  method PrepareFrame(msg: seq<real>, g: Matrix, order: seq<nat>) returns (f: Frame)
    requires |g| >= 1 && Rectangular(g, |msg|) && FullRank(g, |msg|)
    requires IsPermutation(order) && |order| == |msg|
    ensures f == Prepare(msg, g, order)
  {
    var d := Decompose(msg);
    var pi := InvertPermutation(order);
    var alpha := MakePermutation(pi, d.alpha);
    var beta := MakePermutation(pi, d.beta);
    ShuffledSystematic(g, pi);
    var shuffled := ShuffleColumns(g, pi);
    var rows, pivots := GaussInPlace(shuffled);
    var inf := ReadInfoSet(alpha, pivots);
    f := Frame(alpha, beta, rows, pivots, inf);
  }

  /** `osd`: the decoded word and the reliability order the sort chose. The weight loop
      runs up to `w_max` or the size of the information set, whichever is smaller. */
  method OsdDecode(msg: seq<real>, g: Matrix, wmax: nat) returns (x: Vec, order: seq<nat>)
    requires Admissible(msg, g)
    ensures IsReliabilityOrder(order, Decompose(msg).beta)
    ensures x == Osd(msg, g, wmax, order)
    ensures InRowSpace(g, |msg|, x)
  {
    order := SortByReliability(Decompose(msg).beta);
    var f := PrepareFrame(msg, g, order);
    var best := SearchAll(f, Min(wmax, |g|));
    x := MakePermutation(order, best);
  }
}
