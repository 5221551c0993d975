/** The flip patterns `osd` tries on the information set, and what flipping does:
    toggling listed positions, the positions where two words differ, and the list of
    every pattern of weight at most `w_max` in the order the search visits them. */
module FlipPatterns {
  import opened Common
  import opened Linalg
  import opened Combinations

  /** Every index listed in `s` is below `n`. */
  predicate Bounded(s: seq<nat>, n: nat) {
    forall t :: 0 <= t < |s| ==> s[t] < n
  }

  predicate AllBounded(pats: seq<seq<nat>>, n: nat) {
    forall i :: 0 <= i < |pats| ==> Bounded(pats[i], n)
  }

  // ----- flipping information bits -----

  /** Toggle `v` at each listed position in turn, as the loops over `flip_indices` do. */
  function Flip(v: Vec, s: seq<nat>): (r: Vec)
    requires Bounded(s, |v|)
    ensures |r| == |v|
    decreases |s|
  {
    if |s| == 0 then v
    else
      var u := Flip(v, s[..|s| - 1]);
      u[s[|s| - 1] := !u[s[|s| - 1]]]
  }

  /** With distinct positions, in any order, a position is toggled exactly when it is listed. */
  lemma {:induction false} FlipMembers(v: Vec, s: seq<nat>)
    requires Bounded(s, |v|) && Distinct(s)
    ensures forall i :: 0 <= i < |v| ==> Flip(v, s)[i] == (v[i] != (i in s))
    decreases |s|
  {
    if |s| > 0 {
      var n := |s| - 1;
      FlipMembers(v, s[..n]);
      assert s == s[..n] + [s[n]];
      assert s[n] !in s[..n];
    }
  }

  /** Toggling one bit before a flip is toggling it after. */
  lemma {:induction false} FlipToggle(w: Vec, x: nat, s: seq<nat>)
    requires Bounded(s, |w|) && x < |w|
    ensures Flip(w[x := !w[x]], s) == Flip(w, s)[x := !Flip(w, s)[x]]
    decreases |s|
  {
    if |s| > 0 {
      FlipToggle(w, x, s[..|s| - 1]);
    }
  }

  /** Flipping the same positions twice restores the bits, whatever the list, which
      is why `osd` can undo its flips in place after each candidate. */
  lemma {:induction false} FlipTwice(v: Vec, s: seq<nat>)
    requires Bounded(s, |v|)
    ensures Flip(Flip(v, s), s) == v
    decreases |s|
  {
    if |s| > 0 {
      var n := |s| - 1;
      var x := s[n];
      var u := Flip(v, s[..n]);
      assert Flip(v, s) == u[x := !u[x]];
      FlipToggle(u, x, s[..n]);
      FlipTwice(v, s[..n]);
    }
  }

  /** Each of the two flip loops in the body of `osd`'s inner search loop: toggle the
      information bit at every listed position, in list order. */
  method FlipEach(v: Vec, s: seq<nat>) returns (r: Vec)
    requires Bounded(s, |v|)
    ensures r == Flip(v, s)
    ensures Distinct(s) ==> forall i :: 0 <= i < |v| ==> r[i] == (v[i] != (i in s))
  {
    r := v;
    var t := 0;
    while t < |s|
      invariant 0 <= t <= |s| && r == Flip(v, s[..t])
    {
      assert s[..t + 1][..t] == s[..t];
      r := r[s[t] := !r[s[t]]];
      t := t + 1;
    }
    assert s[..|s|] == s;
    if Distinct(s) {
      FlipMembers(v, s);
    }
  }

  /** The positions where `a` and `b` differ, in increasing order. */
  function Differences(a: Vec, b: Vec): (s: seq<nat>)
    requires |a| == |b|
    ensures StrictlyIncreasing(s) && Bounded(s, |a|)
    ensures forall i :: 0 <= i < |a| ==> (i in s <==> a[i] != b[i])
    decreases |a|
  {
    if |a| == 0 then []
    else
      var n := |a| - 1;
      Differences(a[..n], b[..n]) + if a[n] != b[n] then [n] else []
  }

  /** Two words never differ in more positions than they have. */
  lemma DifferencesBound(a: Vec, b: Vec)
    requires |a| == |b|
    ensures |Differences(a, b)| <= |a|
  {
    var s := Differences(a, b);
    if |s| > 0 {
      IncreasingSpread(s, 0, |s| - 1);
    }
  }

  /** Two increasing sequences with the same elements are equal. */
  lemma {:induction false} IncreasingUnique(a: seq<nat>, b: seq<nat>)
    requires StrictlyIncreasing(a) && StrictlyIncreasing(b)
    requires forall x :: x in a <==> x in b
    ensures a == b
    decreases |a|
  {
    if |a| > 0 {
      assert a[0] in a;
    }
    if |b| > 0 {
      assert b[0] in b;
    }
    if |a| > 0 && |b| > 0 {
      assert a[0] in b && b[0] in a;
      assert a[0] == b[0];
      forall x
        ensures x in a[1..] <==> x in b[1..]
      {
        if x in a[1..] {
          assert x in b && x != b[0];
        }
        if x in b[1..] {
          assert x in a && x != a[0];
        }
      }
      IncreasingUnique(a[1..], b[1..]);
      assert a == [a[0]] + a[1..] && b == [b[0]] + b[1..];
    }
  }

  /** Flipping exactly the differing positions turns `b` into `a`. */
  lemma FlipDifferences(a: Vec, b: Vec)
    requires |a| == |b|
    ensures Flip(b, Differences(a, b)) == a
  {
    FlipMembers(b, Differences(a, b));
  }

  /** The positions a flip pattern of distinct positions changes are exactly its own. */
  lemma DifferencesOfFlip(b: Vec, s: seq<nat>)
    requires Bounded(s, |b|) && StrictlyIncreasing(s)
    ensures Differences(Flip(b, s), b) == s
  {
    FlipMembers(b, s);
    var d := Differences(Flip(b, s), b);
    assert forall x :: x in d ==> x in s;
    forall x | x in s
      ensures x in d
    {
      assert x < |b|;
    }
    IncreasingUnique(d, s);
  }

  // ----- the flip patterns tried -----

  /** The flip patterns of weight `w`: the views of a `combination(w, k)` from its
      construction until `next()` fails. */
  function Weight(w: nat, k: nat): (r: seq<seq<nat>>)
    requires w <= k
    ensures |r| >= 1 && AllBounded(r, k)
  {
    EnumerateShape(Init(w, k));
    Enumerate(Init(w, k))
  }

  lemma WeightZero(k: nat)
    ensures Weight(0, k) == [[]]
  {
    EnumerateEmpty(k);
  }

  /** Each weight lists every combination of that weight. */
  lemma WeightAll(w: nat, k: nat, s: seq<nat>)
    requires w <= k
    ensures s in Weight(w, k) <==> IsCombination(s, w, k)
  {
    EnumerateCovers(w, k);
  }

  lemma InAppend<T>(a: seq<T>, b: seq<T>, x: T)
    ensures x in a + b <==> x in a || x in b
  {
  }

  /** Two lists of bounded patterns, one after the other, are bounded. */
  lemma AppendBounded(p: seq<seq<nat>>, q: seq<seq<nat>>, k: nat)
    requires AllBounded(p, k) && AllBounded(q, k)
    ensures AllBounded(p + q, k)
  {
    forall i | 0 <= i < |p + q|
      ensures Bounded((p + q)[i], k)
    {
      if i >= |p| {
        assert (p + q)[i] == q[i - |p|];
      }
    }
  }

  /** The flip patterns of every weight below `w`, weight by weight, in the order the
      loop over `w` and the inner loop that runs until `next()` fails try them. */
  function Patterns(k: nat, w: nat): (r: seq<seq<nat>>)
    requires w <= k + 1
    ensures AllBounded(r, k)
    ensures w >= 1 ==> |r| >= 1
  {
    if w == 0 then []
    else
      var p := Patterns(k, w - 1);
      AppendBounded(p, Weight(w - 1, k), k);
      p + Weight(w - 1, k)
  }

  /** One turn of the outer loop adds the patterns of weight `w - 1`. */
  lemma PatternsUnfold(k: nat, w: nat)
    requires 1 <= w <= k + 1
    ensures Patterns(k, w) == Patterns(k, w - 1) + Weight(w - 1, k)
  {
  }

  /** A pattern is tried up to weight `v` when it was tried before or has weight `v`. */
  lemma PatternsUnfoldMember(k: nat, v: nat, s: seq<nat>)
    requires v <= k
    ensures s in Patterns(k, v + 1) <==> s in Patterns(k, v) || IsCombination(s, v, k)
  {
    PatternsUnfoldIn(k, v, s);
    WeightAll(v, k, s);
  }

  lemma PatternsUnfoldIn(k: nat, v: nat, s: seq<nat>)
    requires v <= k
    ensures s in Patterns(k, v + 1) <==> s in Patterns(k, v) || s in Weight(v, k)
  {
    PatternsUnfold(k, v + 1);
    InAppend(Patterns(k, v), Weight(v, k), s);
  }

  /** The patterns of weight up to `v` are those of smaller weight and those of weight `v`. */
  lemma PatternsStepMember(k: nat, v: nat, s: seq<nat>)
    requires v <= k
    requires s in Patterns(k, v) <==> |s| < v && IsCombination(s, |s|, k)
    ensures s in Patterns(k, v + 1) <==> |s| < v + 1 && IsCombination(s, |s|, k)
  {
    PatternsUnfoldMember(k, v, s);
  }

  /** The patterns tried are exactly the increasing lists of fewer than `w` positions. */
  lemma {:induction false} PatternsAll(k: nat, w: nat, s: seq<nat>)
    requires w <= k + 1
    ensures s in Patterns(k, w) <==> |s| < w && IsCombination(s, |s|, k)
  {
    if w > 0 {
      var v := w - 1;
      PatternsAll(k, v, s);
      PatternsStepMember(k, v, s);
      assert v + 1 == w;
    }
  }

  /** Every pattern tried lists distinct positions below `k`, and the first pattern is
      the empty one: the hard decision itself. */
  lemma {:induction false} PatternsFirst(k: nat, w: nat)
    requires 1 <= w <= k + 1
    ensures Patterns(k, w)[0] == []
  {
    var p := Patterns(k, w - 1);
    var q := Weight(w - 1, k);
    PatternsUnfold(k, w);
    if w == 1 {
      WeightZero(k);
      assert p == [] && p + q == [[]];
    } else {
      PatternsFirst(k, w - 1);
      assert (p + q)[0] == p[0];
    }
  }
}
