/** The lexicographic k-subset enumerator (`combination`). The state holds the
    current combination followed by a sentinel equal to `n`; `next` advances it in
    place to the lexicographically next k-subset of `0 .. n-1`. */
module Combinations {
  import opened Common

  /** `data[..k]` is the current combination and `data[k]` the sentinel `n`. */
  datatype Combination = Combination(data: seq<nat>) {
    predicate WellFormed() {
      |data| >= 1
    }

    /** The number of chosen elements. */
    function K(): nat
      requires WellFormed()
    {
      |data| - 1
    }

    /** The sentinel, which is the size of the ground set. */
    function N(): nat
      requires WellFormed()
    {
      data[|data| - 1]
    }

    /** `get()`: the first `k` entries; the sentinel is never exposed. */
    function Get(): (s: seq<nat>)
      requires WellFormed()
      ensures |s| == K()
      ensures Valid() ==> StrictlyIncreasing(s) && forall i :: 0 <= i < |s| ==> s[i] < N()
    {
      data[..|data| - 1]
    }

    /** A strictly increasing combination whose entries stay below the sentinel. */
    predicate Valid() {
      WellFormed() && StrictlyIncreasing(data)
    }
  }

  /** `s` lists a `k`-subset of `0 .. n-1` in increasing order. */
  predicate IsCombination(s: seq<nat>, k: nat, n: nat) {
    |s| == k && StrictlyIncreasing(s) && forall i :: 0 <= i < k ==> s[i] < n
  }

  lemma ValidIsCombination(c: Combination)
    requires c.WellFormed()
    ensures c.Valid() <==> IsCombination(c.Get(), c.K(), c.N())
  {
    if IsCombination(c.Get(), c.K(), c.N()) {
      forall i, j | 0 <= i < j < |c.data|
        ensures c.data[i] < c.data[j]
      {
        if j < c.K() {
          assert c.Get()[i] < c.Get()[j];
        } else {
          assert c.Get()[i] < c.N();
        }
      }
    }
  }

  /** The combination `[n-k, ..., n-1]`, the last one in lexicographic order. */
  function Last(k: nat, n: nat): (s: seq<nat>)
    requires k <= n
    ensures |s| == k
  {
    seq(k, i requires 0 <= i < k => n - k + i)
  }

  /** Lexicographic order: the first position where the sequences differ decides. */
  predicate LexLess(a: seq<nat>, b: seq<nat>)
    decreases |a|
  {
    |a| > 0 && |b| > 0 && (a[0] < b[0] || (a[0] == b[0] && LexLess(a[1..], b[1..])))
  }

  /** The constructor `combination(k, n)`: `[0, 1, ..., k-1]` followed by the sentinel `n`. */
  function Init(k: nat, n: nat): (c: Combination)
    ensures c.WellFormed() && c.K() == k && c.N() == n
    ensures c.Get() == Iota(k)
    ensures k <= n ==> c.Valid()
  {
    assert (Iota(k) + [n])[..k] == Iota(k);
    Combination(Iota(k) + [n])
  }

  /** `combination::combination(k, n)`: push `0 .. k-1`, then the sentinel. */
  method Construct(k: nat, n: nat) returns (c: Combination)
    ensures c == Init(k, n)
  {
    var data: seq<nat> := [];
    var i := 0;
    while i < k
      invariant 0 <= i <= k && data == Iota(i)
    {
      data := data + [i];
      i := i + 1;
    }
    c := Combination(data + [n]);
  }

  // ----- facts about increasing sequences and the lexicographic order -----

  lemma {:induction false} IncreasingSpread(s: seq<nat>, i: nat, j: nat)
    requires StrictlyIncreasing(s) && i <= j < |s|
    ensures s[j] >= s[i] + (j - i)
    decreases j - i
  {
    if i < j {
      IncreasingSpread(s, i, j - 1);
    }
  }

  /** Each entry of a valid state is at least its index and at most its largest possible value. */
  lemma ValidBounds(c: Combination)
    requires c.Valid()
    ensures c.K() <= c.N()
    ensures forall i :: 0 <= i < |c.data| ==> i <= c.data[i] <= c.N() - c.K() + i
  {
    forall i | 0 <= i < |c.data|
      ensures i <= c.data[i] <= c.N() - c.K() + i
    {
      IncreasingSpread(c.data, 0, i);
      IncreasingSpread(c.data, i, c.K());
    }
  }

  lemma CombinationBounds(s: seq<nat>, k: nat, n: nat)
    requires IsCombination(s, k, n)
    ensures k <= n
    ensures forall i :: 0 <= i < k ==> i <= s[i] <= n - k + i
  {
    var c := Combination(s + [n]);
    assert c.Get() == s;
    ValidIsCombination(c);
    ValidBounds(c);
  }

  lemma {:induction false} LexIrreflexive(a: seq<nat>)
    ensures !LexLess(a, a)
    decreases |a|
  {
    if |a| > 0 {
      LexIrreflexive(a[1..]);
    }
  }

  lemma {:induction false} LexTransitive(a: seq<nat>, b: seq<nat>, c: seq<nat>)
    requires LexLess(a, b) && LexLess(b, c)
    ensures LexLess(a, c)
    decreases |a|
  {
    if a[0] == b[0] && b[0] == c[0] {
      LexTransitive(a[1..], b[1..], c[1..]);
    }
  }

  lemma {:induction false} LexTotal(a: seq<nat>, b: seq<nat>)
    requires |a| == |b| && a != b
    ensures LexLess(a, b) || LexLess(b, a)
    decreases |a|
  {
    if a[0] == b[0] {
      assert a == [a[0]] + a[1..] && b == [b[0]] + b[1..];
      LexTotal(a[1..], b[1..]);
    }
  }

  /** A sequence that is nowhere larger than another is not lexicographically above it. */
  lemma {:induction false} LexPointwise(a: seq<nat>, b: seq<nat>)
    requires |a| == |b| && forall i :: 0 <= i < |a| ==> a[i] <= b[i]
    ensures !LexLess(b, a)
    decreases |a|
  {
    if |a| > 0 {
      LexPointwise(a[1..], b[1..]);
    }
  }

  /** Two sequences that agree before `t` and differ first at `t` are ordered by that entry. */
  lemma {:induction false} LexAt(a: seq<nat>, b: seq<nat>, t: nat)
    requires |a| == |b| && t < |a| && a[..t] == b[..t] && a[t] < b[t]
    ensures LexLess(a, b)
    decreases t
  {
    if t > 0 {
      assert a[0] == a[..t][0] == b[..t][0] == b[0];
      assert a[1..][..t - 1] == a[..t][1..];
      assert b[1..][..t - 1] == b[..t][1..];
      LexAt(a[1..], b[1..], t - 1);
    }
  }

  /** Anything strictly between two sequences with a common prefix shares that prefix. */
  lemma {:induction false} LexBetween(a: seq<nat>, b: seq<nat>, s: seq<nat>, t: nat)
    requires |a| == |b| == |s| && t <= |a| && a[..t] == b[..t]
    requires LexLess(a, s) && LexLess(s, b)
    ensures s[..t] == a[..t]
    ensures LexLess(a[t..], s[t..]) && LexLess(s[t..], b[t..])
    decreases t
  {
    if t > 0 {
      assert a[0] == a[..t][0] == b[..t][0] == b[0];
      assert a[1..][..t - 1] == a[..t][1..];
      assert b[1..][..t - 1] == b[..t][1..];
      LexBetween(a[1..], b[1..], s[1..], t - 1);
      assert s[..t] == [s[0]] + s[1..][..t - 1];
      assert a[..t] == [a[0]] + a[1..][..t - 1];
      assert a[t..] == a[1..][t - 1..] && b[t..] == b[1..][t - 1..] && s[t..] == s[1..][t - 1..];
    }
  }

  // ----- the successor step -----

  /** The rightmost index at or below `t` with `d[r] + 1 != d[r + 1]`, or -1 when
      there is none (`next` detects this by unsigned wrap-around). */
  function GapIndex(d: seq<nat>, t: int): (r: int)
    requires -1 <= t <= |d| - 2
    ensures -1 <= r <= t
    ensures r >= 0 ==> d[r] + 1 != d[r + 1]
    ensures forall i :: r < i <= t ==> d[i] + 1 == d[i + 1]
    decreases t + 1
  {
    if t < 0 then -1
    else if d[t] + 1 != d[t + 1] then t
    else GapIndex(d, t - 1)
  }

  /** Increment `d[t]` and refill the positions after it, up to the sentinel, consecutively. */
  function Refill(d: seq<nat>, t: nat): (r: seq<nat>)
    requires t < |d| - 1
    ensures |r| == |d| && r[..t] == d[..t] && r[|d| - 1] == d[|d| - 1]
    ensures forall i :: t <= i < |d| - 1 ==> r[i] == d[t] + 1 + (i - t)
  {
    seq(|d|, i requires 0 <= i < |d| => if i < t then d[i] else if i < |d| - 1 then d[t] + 1 + (i - t) else d[i])
  }

  /** What `next()` does: `(false, c)` at the last combination, otherwise `(true, successor)`. */
  function Advance(c: Combination): (r: (bool, Combination))
    requires c.WellFormed()
    ensures r.1.WellFormed() && r.1.K() == c.K() && r.1.N() == c.N()
    ensures !r.0 ==> r.1 == c
  {
    var t := GapIndex(c.data, |c.data| - 2);
    if t < 0 then (false, c) else (true, Combination(Refill(c.data, t)))
  }

  /** Past the gap index, a valid state holds the largest values it can. */
  lemma {:induction false} TailIsMaximal(c: Combination, t: int, i: nat)
    requires c.Valid() && -1 <= t <= c.K() - 1 && t < i <= c.K()
    requires forall r :: t < r < c.K() ==> c.data[r] + 1 == c.data[r + 1]
    ensures c.data[i] == c.N() - c.K() + i
    decreases c.K() - i
  {
    if i < c.K() {
      TailIsMaximal(c, t, i + 1);
    }
  }

  /** `next()` reports exhaustion exactly at `[n-k, ..., n-1]`. */
  lemma AdvanceStopsAtLast(c: Combination)
    requires c.Valid()
    ensures c.K() <= c.N()
    ensures !Advance(c).0 <==> c.Get() == Last(c.K(), c.N())
  {
    ValidBounds(c);
    var k, n := c.K(), c.N();
    var t := GapIndex(c.data, |c.data| - 2);
    if t < 0 {
      forall i | 0 <= i < k
        ensures c.Get()[i] == Last(k, n)[i]
      {
        TailIsMaximal(c, -1, i);
      }
    }
    if c.Get() == Last(k, n) {
      forall i | 0 <= i < k
        ensures c.data[i] + 1 == c.data[i + 1]
      {
        assert c.data[i] == c.Get()[i];
        if i + 1 < k {
          assert c.data[i + 1] == c.Get()[i + 1];
        }
      }
    }
  }

  /** Refilling after `t` keeps a sequence increasing when the refilled run stays below the end. */
  lemma RefillIncreasing(d: seq<nat>, t: nat)
    requires StrictlyIncreasing(d) && t < |d| - 1
    requires d[t] + 1 + (|d| - 2 - t) < d[|d| - 1]
    ensures StrictlyIncreasing(Refill(d, t))
  {
    var r := Refill(d, t);
    forall i, j | 0 <= i < j < |r|
      ensures r[i] < r[j]
    {
      if j < t {
        assert r[i] == d[i] && r[j] == d[j];
      } else if i < t {
        assert r[i] == d[i] < d[t];
      }
    }
  }

  /** When `next()` succeeds it produces a valid state that is lexicographically larger. */
  lemma AdvanceValid(c: Combination)
    requires c.Valid() && Advance(c).0
    ensures Advance(c).1.Valid()
    ensures LexLess(c.Get(), Advance(c).1.Get())
  {
    AdvanceValidState(c);
    AdvanceIncreases(c);
  }

  lemma AdvanceValidState(c: Combination)
    requires c.Valid() && Advance(c).0
    ensures Advance(c).1.Valid()
  {
    var k := c.K();
    var t := GapIndex(c.data, k - 1);
    TailIsMaximal(c, t, t + 1);
    assert c.data[t] < c.data[t + 1];
    RefillIncreasing(c.data, t);
  }

  lemma AdvanceIncreases(c: Combination)
    requires c.Valid() && Advance(c).0
    ensures LexLess(c.Get(), Advance(c).1.Get())
  {
    var k := c.K();
    var t := GapIndex(c.data, k - 1);
    var d := Refill(c.data, t);
    var a, b := c.Get(), Advance(c).1.Get();
    assert b == d[..k];
    assert a[..t] == c.data[..t] == d[..t] == b[..t];
    assert a[t] == c.data[t] && b[t] == d[t];
    LexAt(a, b, t);
  }

  /** A combination is nowhere above a state after the state's gap index: the state's
      tail is already maximal. */
  lemma ImmediateLow(c: Combination, s: seq<nat>, t: nat)
    requires c.Valid() && t == GapIndex(c.data, c.K() - 1)
    requires IsCombination(s, c.K(), c.N()) && t < |s|
    ensures !LexLess(c.data[t + 1..c.K()], s[t + 1..])
  {
    var k, n := c.K(), c.N();
    var u, r := c.data[t + 1..k], s[t + 1..];
    CombinationBounds(s, k, n);
    forall i | 0 <= i < |r|
      ensures r[i] <= u[i]
    {
      TailIsMaximal(c, t, t + 1 + i);
    }
    LexPointwise(r, u);
  }

  /** A combination is nowhere below the successor after the gap index, where the
      successor counts up one by one from its entry at the gap. */
  lemma ImmediateHigh(c: Combination, s: seq<nat>, t: nat)
    requires c.Valid() && Advance(c).0 && t == GapIndex(c.data, c.K() - 1)
    requires IsCombination(s, c.K(), c.N()) && t < |s| && s[t] == Refill(c.data, t)[t]
    ensures !LexLess(s[t + 1..], Refill(c.data, t)[t + 1..c.K()])
  {
    var v, r := Refill(c.data, t)[t + 1..c.K()], s[t + 1..];
    forall i | 0 <= i < |r|
      ensures v[i] <= r[i]
    {
      IncreasingSpread(s, t, t + 1 + i);
    }
    LexPointwise(v, r);
  }

  /** No combination lies strictly between a state and its successor. */
  lemma AdvanceIsImmediate(c: Combination, s: seq<nat>)
    requires c.Valid() && Advance(c).0
    requires IsCombination(s, c.K(), c.N())
    ensures !(LexLess(c.Get(), s) && LexLess(s, Advance(c).1.Get()))
  {
    var k := c.K();
    var t := GapIndex(c.data, k - 1);
    var d := Refill(c.data, t);
    var a, b := c.Get(), Advance(c).1.Get();
    if LexLess(a, s) && LexLess(s, b) {
      assert b == d[..k];
      assert a[..t] == b[..t];
      LexBetween(a, b, s, t);
      var u, v, r := a[t..], b[t..], s[t..];
      assert u[1..] == c.data[t + 1..k] && v[1..] == d[t + 1..k] && r[1..] == s[t + 1..];
      if r[0] == u[0] {
        ImmediateLow(c, s, t);
        assert false;
      } else {
        assert r[0] == v[0];
        ImmediateHigh(c, s, t);
        assert false;
      }
    }
  }

  /** The first loop of `next()`: scan left for the rightmost gap; -1 when there is none. */
  method FindGap(data: seq<nat>) returns (t: int)
    requires |data| >= 1
    ensures t == GapIndex(data, |data| - 2)
  {
    t := |data| - 2;
    while t != -1 && data[t] + 1 == data[t + 1]
      invariant -1 <= t <= |data| - 2
      invariant GapIndex(data, t) == GapIndex(data, |data| - 2)
      decreases t + 1
    {
      t := t - 1;
    }
  }

  /** The second loop of `next()`: bump position `t` and refill the run after it. */
  method RefillInPlace(d: seq<nat>, t: nat) returns (data: seq<nat>)
    requires t < |d| - 1
    ensures data == Refill(d, t)
  {
    data := d[t := d[t] + 1];
    var i := t + 1;
    while i < |data| - 1
      invariant t + 1 <= i <= |data| - 1 && |data| == |d|
      invariant forall q :: 0 <= q < i ==> data[q] == Refill(d, t)[q]
      invariant forall q :: i <= q < |d| ==> data[q] == d[q]
    {
      data := data[i := data[i - 1] + 1];
      i := i + 1;
    }
  }

  /** `next()`: `ok` is false exactly at the last combination, and otherwise the state
      moves to a valid, lexicographically larger one. */
  method Next(c: Combination) returns (ok: bool, next: Combination)
    requires c.WellFormed()
    ensures (ok, next) == Advance(c)
    ensures !ok ==> next == c
    ensures c.Valid() ==> c.K() <= c.N() && (!ok <==> c.Get() == Last(c.K(), c.N()))
    ensures c.Valid() && ok ==> next.Valid() && LexLess(c.Get(), next.Get())
  {
    var t := FindGap(c.data);
    if c.Valid() {
      AdvanceStopsAtLast(c);
    }
    if t == -1 {
      return false, c;
    }
    var data := RefillInPlace(c.data, t);
    ok, next := true, Combination(data);
    if c.Valid() {
      AdvanceValid(c);
    }
  }

  // ----- the whole enumeration -----

  function Pow(b: nat, e: nat): (r: nat)
    ensures b >= 1 ==> r >= 1
  {
    if e == 0 then 1 else b * Pow(b, e - 1)
  }

  /** The value of `s` read as a base-`b` numeral; it orders combinations like `LexLess`. */
  function Rank(s: seq<nat>, b: nat): nat
  {
    if |s| == 0 then 0 else s[0] * Pow(b, |s| - 1) + Rank(s[1..], b)
  }

  lemma {:induction false} RankBound(s: seq<nat>, b: nat)
    requires forall i :: 0 <= i < |s| ==> s[i] < b
    ensures Rank(s, b) < Pow(b, |s|)
  {
    if |s| > 0 {
      var p := Pow(b, |s| - 1);
      RankBound(s[1..], b);
      assert (s[0] + 1) * p <= b * p by {
        MulMonotone(s[0] + 1, b, p);
      }
    }
  }

  lemma MulSucc(x: nat, p: nat)
    ensures (x + 1) * p == x * p + p
  {
  }

  lemma MulMonotone(x: nat, y: nat, z: nat)
    requires x <= y
    ensures x * z <= y * z
  {
  }

  lemma {:induction false} RankMonotone(a: seq<nat>, c: seq<nat>, b: nat)
    requires |a| == |c| && LexLess(a, c)
    requires forall i :: 0 <= i < |a| ==> a[i] < b && c[i] < b
    ensures Rank(a, b) < Rank(c, b)
  {
    var p := Pow(b, |a| - 1);
    assert Rank(a, b) == a[0] * p + Rank(a[1..], b);
    assert Rank(c, b) == c[0] * p + Rank(c[1..], b);
    if a[0] < c[0] {
      RankBound(a[1..], b);
      MulMonotone(a[0] + 1, c[0], p);
      MulSucc(a[0], p);
    } else {
      RankMonotone(a[1..], c[1..], b);
    }
  }

  /** How far the state still is from the end of the enumeration. */
  function Remaining(c: Combination): nat
    requires c.Valid()
  {
    ValidBounds(c);
    RankBound(c.Get(), c.N() + 1);
    Pow(c.N() + 1, c.K()) - Rank(c.Get(), c.N() + 1)
  }

  lemma AdvanceProgress(c: Combination)
    requires c.Valid() && Advance(c).0
    ensures Advance(c).1.Valid()
    ensures Remaining(Advance(c).1) < Remaining(c)
  {
    var d := Advance(c).1;
    AdvanceValid(c);
    ValidBounds(c);
    ValidBounds(d);
    RankMonotone(c.Get(), d.Get(), c.N() + 1);
  }

  /** The views `get()` returns from this state on, calling `next()` until it fails. */
  function Enumerate(c: Combination): (r: seq<seq<nat>>)
    requires c.Valid()
    ensures |r| >= 1 && r[0] == c.Get()
    decreases Remaining(c)
  {
    if Advance(c).0 then
      AdvanceProgress(c);
      [c.Get()] + Enumerate(Advance(c).1)
    else [c.Get()]
  }

  /** One step of the enumeration: the current view, then the rest from its successor. */
  lemma EnumerateStep(c: Combination)
    requires c.Valid()
    ensures Advance(c).0 ==> Advance(c).1.Valid() && Enumerate(c) == [c.Get()] + Enumerate(Advance(c).1)
    ensures Advance(c).0 ==> Remaining(Advance(c).1) < Remaining(c)
    ensures !Advance(c).0 ==> Enumerate(c) == [c.Get()]
  {
    if Advance(c).0 {
      AdvanceProgress(c);
    }
  }

  /** Every view is a combination of the same size. */
  lemma {:induction false} EnumerateShape(c: Combination)
    requires c.Valid()
    ensures forall i :: 0 <= i < |Enumerate(c)| ==> IsCombination(Enumerate(c)[i], c.K(), c.N())
    decreases Remaining(c)
  {
    ValidIsCombination(c);
    if Advance(c).0 {
      var d := Advance(c).1;
      AdvanceProgress(c);
      EnumerateShape(d);
      assert Enumerate(c) == [c.Get()] + Enumerate(d);
    }
  }

  /** The views strictly increase. */
  lemma {:induction false} EnumerateSorted(c: Combination)
    requires c.Valid()
    ensures forall i, j :: 0 <= i < j < |Enumerate(c)| ==> LexLess(Enumerate(c)[i], Enumerate(c)[j])
    decreases Remaining(c)
  {
    if Advance(c).0 {
      var d := Advance(c).1;
      AdvanceProgress(c);
      AdvanceValid(c);
      EnumerateSorted(d);
      var e := Enumerate(c);
      assert e == [c.Get()] + Enumerate(d);
      forall i, j | 0 <= i < j < |e|
        ensures LexLess(e[i], e[j])
      {
        if i == 0 && j > 1 {
          LexTransitive(c.Get(), d.Get(), e[j]);
        }
      }
    }
  }

  /** Every combination at or after the current one is visited. */
  lemma {:induction false} EnumerateComplete(c: Combination, s: seq<nat>)
    requires c.Valid() && IsCombination(s, c.K(), c.N())
    requires s == c.Get() || LexLess(c.Get(), s)
    ensures s in Enumerate(c)
    decreases Remaining(c)
  {
    if s != c.Get() {
      if Advance(c).0 {
        var d := Advance(c).1;
        AdvanceProgress(c);
        AdvanceIsImmediate(c, s);
        ValidIsCombination(d);
        if s != d.Get() {
          LexTotal(s, d.Get());
        }
        EnumerateComplete(d, s);
      } else {
        AdvanceStopsAtLast(c);
        CombinationBounds(s, c.K(), c.N());
        LexPointwise(s, c.Get());
        assert false;
      }
    }
  }

  /** From the initial state, the enumeration lists every `k`-subset of `0 .. n-1`
      and nothing else. */
  lemma EnumerateCovers(k: nat, n: nat)
    requires k <= n
    ensures forall s :: s in Enumerate(Init(k, n)) <==> IsCombination(s, k, n)
  {
    var c := Init(k, n);
    EnumerateShape(c);
    forall s | IsCombination(s, k, n)
      ensures s in Enumerate(c)
    {
      CombinationBounds(s, k, n);
      if s != Iota(k) {
        LexPointwise(Iota(k), s);
        LexTotal(s, Iota(k));
      }
      EnumerateComplete(c, s);
    }
  }

  /** ... exactly once each, in strictly increasing lexicographic order. */
  lemma EnumerateAll(k: nat, n: nat)
    requires k <= n
    ensures forall s :: s in Enumerate(Init(k, n)) <==> IsCombination(s, k, n)
    ensures forall i, j :: 0 <= i < j < |Enumerate(Init(k, n))| ==>
              LexLess(Enumerate(Init(k, n))[i], Enumerate(Init(k, n))[j])
  {
    EnumerateCovers(k, n);
    EnumerateSorted(Init(k, n));
  }

  /** The successor steps for two elements out of four, up to `[1, 2]`. */
  lemma TwoOfFourFirstSteps()
    ensures Init(2, 4).data == [0, 1, 4]
    ensures Advance(Combination([0, 1, 4])) == (true, Combination([0, 2, 4]))
    ensures Advance(Combination([0, 2, 4])) == (true, Combination([0, 3, 4]))
    ensures Advance(Combination([0, 3, 4])) == (true, Combination([1, 2, 4]))
  {
    assert GapIndex([0, 1, 4], 1) == 1;
    assert Refill([0, 1, 4], 1) == [0, 2, 4];
    assert GapIndex([0, 2, 4], 1) == 1;
    assert Refill([0, 2, 4], 1) == [0, 3, 4];
    assert GapIndex([0, 3, 4], 1) == 0;
    assert Refill([0, 3, 4], 0) == [1, 2, 4];
  }

  /** The successor steps for two elements out of four, from `[1, 2]` on. */
  lemma TwoOfFourLastSteps()
    ensures Advance(Combination([1, 2, 4])) == (true, Combination([1, 3, 4]))
    ensures Advance(Combination([1, 3, 4])) == (true, Combination([2, 3, 4]))
    ensures Advance(Combination([2, 3, 4])) == (false, Combination([2, 3, 4]))
  {
    assert GapIndex([1, 2, 4], 1) == 1;
    assert Refill([1, 2, 4], 1) == [1, 3, 4];
    assert GapIndex([1, 3, 4], 1) == 0;
    assert Refill([1, 3, 4], 0) == [2, 3, 4];
    assert GapIndex([2, 3, 4], 1) == -1;
  }

  /** The order for two elements out of four. */
  lemma EnumerateTwoOfFour()
    ensures Enumerate(Init(2, 4)) == [[0, 1], [0, 2], [0, 3], [1, 2], [1, 3], [2, 3]]
  {
    TwoOfFourFirstSteps();
    TwoOfFourLastSteps();
    var c5 := Combination([2, 3, 4]);
    var c4 := Combination([1, 3, 4]);
    var c3 := Combination([1, 2, 4]);
    var c2 := Combination([0, 3, 4]);
    var c1 := Combination([0, 2, 4]);
    assert c5.Get() == [2, 3] && c4.Get() == [1, 3] && c3.Get() == [1, 2];
    assert c2.Get() == [0, 3] && c1.Get() == [0, 2] && Init(2, 4).Get() == [0, 1];
    assert Enumerate(c5) == [[2, 3]];
    assert Enumerate(c4) == [[1, 3], [2, 3]];
    assert Enumerate(c3) == [[1, 2], [1, 3], [2, 3]];
    assert Enumerate(c2) == [[0, 3], [1, 2], [1, 3], [2, 3]];
    assert Enumerate(c1) == [[0, 2], [0, 3], [1, 2], [1, 3], [2, 3]];
  }

  /** With `k = 0` there is exactly one combination, the empty one. */
  lemma EnumerateEmpty(n: nat)
    ensures Enumerate(Init(0, n)) == [[]]
  {
    assert !Advance(Init(0, n)).0;
  }

  // ----- a combination wider than its ground set -----

  /** The state after `j` calls of `next()`, and whether all of them succeeded. */
  function Steps(c: Combination, j: nat): (r: (bool, Combination))
    requires c.WellFormed()
    ensures r.1.WellFormed() && r.1.K() == c.K() && r.1.N() == c.N()
    ensures !r.0 ==> !Advance(r.1).0
  {
    if j == 0 then (true, c)
    else
      var prev := Steps(c, j - 1);
      if prev.0 then Advance(prev.1) else prev
  }

  /** `combination(2, 1)` holds `[0, 1]` with the sentinel 1, which is not a valid state. */
  lemma WideInit()
    ensures Init(2, 1) == Combination([0, 1, 1]) && !Init(2, 1).Valid()
  {
    assert Iota(2) == [0, 1];
    assert Init(2, 1).data[1] == Init(2, 1).data[2];
  }

  /** On `[0, m]` with sentinel 1, `next()` finds a gap at the last entry and bumps it. */
  lemma WideStep(m: nat)
    requires m >= 1
    ensures Advance(Combination([0, m, 1])) == (true, Combination([0, m + 1, 1]))
  {
    var d: seq<nat> := [0, m, 1];
    assert GapIndex(d, 1) == 1;
    assert Refill(d, 1) == [0, m + 1, 1];
  }

  /** `combination(2, 1)` asks for more elements than the ground set has. Its state is not
      valid, and `next()` never reports exhaustion: after `j` calls the state is `[0, j + 1]`
      with sentinel 1. A loop that runs until `next()` fails never ends on it. */
  lemma {:induction false} WideNeverStops(j: nat)
    ensures !Init(2, 1).Valid()
    ensures Steps(Init(2, 1), j) == (true, Combination([0, j + 1, 1]))
  {
    WideInit();
    if j > 0 {
      WideNeverStops(j - 1);
      WideStep(j);
      assert Steps(Init(2, 1), j) == Advance(Combination([0, j, 1]));
    }
  }
}
