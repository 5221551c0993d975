/** GF(2) vectors and matrices: XOR addition, parsing from text, and the
    vector-times-matrix product that encodes a message with a generator matrix. */
module Linalg {
  import opened Common

  /** A GF(2) vector (`vec2`): one boolean per coordinate. */
  type Vec = seq<bool>

  /** A matrix is a sequence of rows. */
  type Matrix = seq<Vec>

  /** The error `vec2::from_string` raises on a character other than '0' or '1'. */
  datatype ParseError = InvalidInput

  /** The all-false vector of length `n`. */
  function Zero(n: nat): (z: Vec)
    ensures |z| == n
    ensures forall i :: 0 <= i < n ==> !z[i]
  {
    seq(n, _ => false)
  }

  /** The vector that is true only at coordinate `r`. */
  function Unit(n: nat, r: nat): (u: Vec)
    requires r < n
    ensures |u| == n
    ensures forall i :: 0 <= i < n ==> u[i] == (i == r)
  {
    seq(n, i => i == r)
  }

  /** Coordinate-wise XOR of two vectors of equal length (`operator+`). */
  function Add(a: Vec, b: Vec): (c: Vec)
    requires |a| == |b|
    ensures |c| == |a|
    ensures forall i :: 0 <= i < |c| ==> c[i] == (a[i] != b[i])
  {
    seq(|a|, i requires 0 <= i < |a| => a[i] != b[i])
  }

  /** `a += b`: a coordinate loop whose result is `Add(a, b)`. */
  method AddAssign(a: Vec, b: Vec) returns (r: Vec)
    requires |a| == |b|
    ensures r == Add(a, b)
  {
    r := a;
    var i := 0;
    while i < |r|
      invariant 0 <= i <= |r| == |a|
      invariant forall t :: 0 <= t < i ==> r[t] == (a[t] != b[t])
      invariant forall t :: i <= t < |r| ==> r[t] == a[t]
    {
      r := r[i := r[i] != b[i]];
      i := i + 1;
    }
  }

  lemma AddSelf(a: Vec)
    ensures Add(a, a) == Zero(|a|)
  {
  }

  lemma AddZero(a: Vec)
    ensures Add(a, Zero(|a|)) == a
  {
  }

  lemma AddCommutes(a: Vec, b: Vec)
    requires |a| == |b|
    ensures Add(a, b) == Add(b, a)
  {
  }

  lemma AddAssociates(a: Vec, b: Vec, c: Vec)
    requires |a| == |b| == |c|
    ensures Add(Add(a, b), c) == Add(a, Add(b, c))
  {
  }

  /** Adding the same vector twice gives back the original: `(a + b) + b == a`. */
  lemma AddCancel(a: Vec, b: Vec)
    requires |a| == |b|
    ensures Add(Add(a, b), b) == a
  {
  }

  /** `vec2::from_string`: '1' reads as true, '0' as false, anything else fails. */
  function FromString(s: string): (r: Result<Vec, ParseError>)
    ensures r.Success? <==> forall i :: 0 <= i < |s| ==> s[i] == '0' || s[i] == '1'
    ensures r.Success? ==> |r.value| == |s|
    ensures r.Success? ==> forall i :: 0 <= i < |s| ==> r.value[i] == (s[i] == '1')
  {
    if |s| == 0 then Success([])
    else
      var prefix := FromString(s[..|s| - 1]);
      var c := s[|s| - 1];
      if prefix.Failure? then prefix
      else if c != '0' && c != '1' then Failure(InvalidInput)
      else Success(prefix.value + [c == '1'])
  }

  /** `vec2::from_string`: push one bit per character and stop
      at the first character that is neither '0' nor '1'. */
  method ParseBits(s: string) returns (r: Result<Vec, ParseError>)
    ensures r == FromString(s)
  {
    var res: Vec := [];
    var i := 0;
    while i < |s|
      invariant 0 <= i <= |s|
      invariant FromString(s[..i]) == Success(res)
    {
      assert s[..i + 1][..i] == s[..i];
      if s[i] != '0' && s[i] != '1' {
        assert !(s[i] == '0' || s[i] == '1');
        assert FromString(s).Failure? && FromString(s).error == InvalidInput;
        return Failure(InvalidInput);
      }
      res := res + [s[i] == '1'];
      i := i + 1;
    }
    assert s[..|s|] == s;
    r := Success(res);
  }

  /** The textual form the matrix file uses for a row. */
  function ToBitString(v: Vec): (s: string)
    ensures |s| == |v|
  {
    seq(|v|, i requires 0 <= i < |v| => if v[i] then '1' else '0')
  }

  /** Parsing undoes printing ... */
  lemma ParsePrinted(v: Vec)
    ensures FromString(ToBitString(v)) == Success(v)
  {
    var r := FromString(ToBitString(v));
    assert r.Success?;
    assert r.value == v;
  }

  /** ... and printing undoes a successful parse. */
  lemma PrintParsed(s: string)
    requires FromString(s).Success?
    ensures ToBitString(FromString(s).value) == s
  {
  }

  /** All rows have length `n`. */
  predicate Rectangular(m: Matrix, n: nat) {
    forall i :: 0 <= i < |m| ==> |m[i]| == n
  }

  /** The XOR of the rows `m[i]` whose coefficient `c[i]` is true, accumulated
      in row order as `mul` does; `n` is the row length. */
  function LinComb(c: Vec, m: Matrix, n: nat): (r: Vec)
    requires |c| == |m| && Rectangular(m, n)
    ensures |r| == n
    decreases |c|
  {
    if |c| == 0 then Zero(n)
    else
      var acc := LinComb(c[..|c| - 1], m[..|m| - 1], n);
      if c[|c| - 1] then Add(acc, m[|m| - 1]) else acc
  }

  /** `mul(v, m)`: encode `v` with the matrix `m`, which must have at least one row. */
  function Mul(v: Vec, m: Matrix): (r: Vec)
    requires |v| == |m| >= 1 && Rectangular(m, |m[0]|)
    ensures |r| == |m[0]|
    ensures v == Zero(|m|) ==> r == Zero(|m[0]|)
    ensures forall q :: 0 <= q < |m| && v == Unit(|m|, q) ==> r == m[q]
  {
    LinCombZero(m, |m[0]|);
    LinCombUnits(m, |m[0]|);
    LinComb(v, m, |m[0]|)
  }

  /** Every unit message selects its row. */
  lemma LinCombUnits(m: Matrix, n: nat)
    requires Rectangular(m, n)
    ensures forall q :: 0 <= q < |m| ==> LinComb(Unit(|m|, q), m, n) == m[q]
  {
    forall q | 0 <= q < |m|
      ensures LinComb(Unit(|m|, q), m, n) == m[q]
    {
      LinCombUnit(m, n, q);
    }
  }

  /** `mul`: start from zero and add the selected rows. */
  method MulAccumulate(v: Vec, m: Matrix) returns (result: Vec)
    requires |v| == |m| >= 1 && Rectangular(m, |m[0]|)
    ensures result == Mul(v, m)
  {
    var n := |m[0]|;
    result := Zero(n);
    var i := 0;
    while i < |m|
      invariant 0 <= i <= |m|
      invariant result == LinComb(v[..i], m[..i], n)
    {
      assert v[..i + 1][..i] == v[..i] && m[..i + 1][..i] == m[..i];
      if v[i] {
        result := AddAssign(result, m[i]);
      }
      i := i + 1;
    }
    assert v[..|m|] == v && m[..|m|] == m;
  }

  /** The all-false message encodes to the zero word. */
  lemma {:induction false} LinCombZero(m: Matrix, n: nat)
    requires Rectangular(m, n)
    ensures LinComb(Zero(|m|), m, n) == Zero(n)
  {
    if |m| > 0 {
      assert Zero(|m|)[..|m| - 1] == Zero(|m| - 1);
      LinCombZero(m[..|m| - 1], n);
    }
  }

  /** Encoding is linear in the message. */
  lemma {:induction false} LinCombAdd(c: Vec, d: Vec, m: Matrix, n: nat)
    requires |c| == |d| == |m| && Rectangular(m, n)
    ensures LinComb(Add(c, d), m, n) == Add(LinComb(c, m, n), LinComb(d, m, n))
  {
    if |c| > 0 {
      var k := |c| - 1;
      assert Add(c, d)[..k] == Add(c[..k], d[..k]);
      LinCombAdd(c[..k], d[..k], m[..k], n);
    }
  }

  /** The unit message `r` selects row `r`. */
  lemma {:induction false} LinCombUnit(m: Matrix, n: nat, r: nat)
    requires Rectangular(m, n) && r < |m|
    ensures LinComb(Unit(|m|, r), m, n) == m[r]
  {
    var k := |m| - 1;
    if r == k {
      assert Unit(|m|, r)[..k] == Zero(k);
      LinCombZero(m[..k], n);
    } else {
      assert Unit(|m|, r)[..k] == Unit(k, r);
      LinCombUnit(m[..k], n, r);
    }
  }

  /** Flipping one coefficient adds (or removes) the matching row. */
  lemma LinCombFlip(c: Vec, m: Matrix, n: nat, i: nat)
    requires |c| == |m| && Rectangular(m, n) && i < |c|
    ensures LinComb(c[i := !c[i]], m, n) == Add(LinComb(c, m, n), m[i])
  {
    assert c[i := !c[i]] == Add(c, Unit(|c|, i));
    LinCombAdd(c, Unit(|c|, i), m, n);
    LinCombUnit(m, n, i);
  }

  /** Replacing row `i` by `x` changes the combination only if row `i` is selected. */
  lemma {:induction false} LinCombUpdateRow(c: Vec, m: Matrix, n: nat, i: nat, x: Vec)
    requires |c| == |m| && Rectangular(m, n) && i < |m| && |x| == n
    ensures LinComb(c, m[i := x], n)
         == if c[i] then Add(Add(LinComb(c, m, n), m[i]), x) else LinComb(c, m, n)
  {
    var k := |c| - 1;
    if i == k {
      assert m[i := x][..k] == m[..k];
    } else {
      assert m[i := x][..k] == m[..k][i := x];
      LinCombUpdateRow(c[..k], m[..k], n, i, x);
    }
  }

  /** The elementary row operation `m[dst] += m[src]`. */
  function AddRowInto(m: Matrix, dst: nat, src: nat): (r: Matrix)
    requires dst < |m| && src < |m| && |m[dst]| == |m[src]|
    ensures |r| == |m|
    ensures forall i :: 0 <= i < |m| && i != dst ==> r[i] == m[i]
    ensures r[dst] == Add(m[dst], m[src])
  {
    m[dst := Add(m[dst], m[src])]
  }

  /** The message that, on the matrix before `m[dst] += m[src]`, gives what `c`
      gives after it: selecting the new row `dst` also toggles row `src`. */
  function RowOpCoeffs(c: Vec, dst: nat, src: nat): (d: Vec)
    requires dst < |c| && src < |c| && dst != src
    ensures |d| == |c| && d[dst] == c[dst]
  {
    if c[dst] then c[src := !c[src]] else c
  }

  lemma RowOpCoeffsInvolutive(c: Vec, dst: nat, src: nat)
    requires dst < |c| && src < |c| && dst != src
    ensures RowOpCoeffs(RowOpCoeffs(c, dst, src), dst, src) == c
  {
  }

  /** The effect of a row operation on every combination of the rows. */
  lemma LinCombRowOp(c: Vec, m: Matrix, n: nat, dst: nat, src: nat)
    requires |c| == |m| && Rectangular(m, n) && dst < |m| && src < |m| && dst != src
    ensures Rectangular(AddRowInto(m, dst, src), n)
    ensures LinComb(c, AddRowInto(m, dst, src), n) == LinComb(RowOpCoeffs(c, dst, src), m, n)
  {
    LinCombUpdateRow(c, m, n, dst, Add(m[dst], m[src]));
    if c[dst] {
      LinCombFlip(c, m, n, src);
    }
  }

  /** `x` is a codeword of the code generated by the rows of `m`. */
  ghost predicate InRowSpace(m: Matrix, n: nat, x: Vec) {
    Rectangular(m, n) && exists c :: |c| == |m| && LinComb(c, m, n) == x
  }

  /** `a` and `b` generate the same code. */
  ghost predicate SameRowSpace(a: Matrix, b: Matrix, n: nat) {
    Rectangular(a, n) && Rectangular(b, n)
    && forall x :: InRowSpace(a, n, x) <==> InRowSpace(b, n, x)
  }

  lemma SameRowSpaceTrans(a: Matrix, b: Matrix, c: Matrix, n: nat)
    requires SameRowSpace(a, b, n) && SameRowSpace(b, c, n)
    ensures SameRowSpace(a, c, n)
  {
  }

  /** The rows of `m` are linearly independent: only the all-false message encodes to zero. */
  ghost predicate FullRank(m: Matrix, n: nat) {
    Rectangular(m, n)
    && forall c :: |c| == |m| && c != Zero(|m|) ==> LinComb(c, m, n) != Zero(n)
  }

  /** A row operation between two different rows keeps the code and the rank. */
  lemma RowOpPreserves(m: Matrix, n: nat, dst: nat, src: nat)
    requires Rectangular(m, n) && dst < |m| && src < |m| && dst != src
    ensures SameRowSpace(m, AddRowInto(m, dst, src), n)
    ensures FullRank(m, n) ==> FullRank(AddRowInto(m, dst, src), n)
  {
    var b := AddRowInto(m, dst, src);
    assert Rectangular(b, n) by { LinCombRowOp(Zero(|m|), m, n, dst, src); }
    forall x
      ensures InRowSpace(m, n, x) <==> InRowSpace(b, n, x)
    {
      if InRowSpace(b, n, x) {
        RowOpShrinks(m, n, dst, src, x);
      }
      if InRowSpace(m, n, x) {
        RowOpGrows(m, n, dst, src, x);
      }
    }
    if FullRank(m, n) {
      RowOpKeepsRank(m, n, dst, src);
    }
  }

  lemma RowOpShrinks(m: Matrix, n: nat, dst: nat, src: nat, x: Vec)
    requires Rectangular(m, n) && dst < |m| && src < |m| && dst != src
    requires InRowSpace(AddRowInto(m, dst, src), n, x)
    ensures InRowSpace(m, n, x)
  {
    var b := AddRowInto(m, dst, src);
    var c :| |c| == |b| && LinComb(c, b, n) == x;
    LinCombRowOp(c, m, n, dst, src);
    assert LinComb(RowOpCoeffs(c, dst, src), m, n) == x;
  }

  lemma RowOpGrows(m: Matrix, n: nat, dst: nat, src: nat, x: Vec)
    requires Rectangular(m, n) && dst < |m| && src < |m| && dst != src
    requires InRowSpace(m, n, x)
    ensures InRowSpace(AddRowInto(m, dst, src), n, x)
  {
    var b := AddRowInto(m, dst, src);
    var d :| |d| == |m| && LinComb(d, m, n) == x;
    var c := RowOpCoeffs(d, dst, src);
    RowOpCoeffsInvolutive(d, dst, src);
    LinCombRowOp(c, m, n, dst, src);
    assert LinComb(c, b, n) == x;
  }

  lemma RowOpKeepsRank(m: Matrix, n: nat, dst: nat, src: nat)
    requires FullRank(m, n) && dst < |m| && src < |m| && dst != src
    ensures FullRank(AddRowInto(m, dst, src), n)
  {
    var b := AddRowInto(m, dst, src);
    LinCombRowOp(Zero(|m|), m, n, dst, src);
    forall c | |c| == |b| && c != Zero(|b|)
      ensures LinComb(c, b, n) != Zero(n)
    {
      LinCombRowOp(c, m, n, dst, src);
      var d := RowOpCoeffs(c, dst, src);
      RowOpCoeffsInvolutive(c, dst, src);
      assert RowOpCoeffs(Zero(|m|), dst, src) == Zero(|m|);
      assert d != Zero(|m|);
    }
  }

  /** If column `j` of `m` is the unit column of row `p`, every codeword carries
      the message bit `c[p]` in position `j`. */
  lemma {:induction false} LinCombUnitColumn(c: Vec, m: Matrix, n: nat, j: nat, p: nat)
    requires |c| == |m| && Rectangular(m, n) && j < n && p < |m|
    requires forall r :: 0 <= r < |m| ==> m[r][j] == (r == p)
    ensures LinComb(c, m, n)[j] == c[p]
  {
    var k := |c| - 1;
    if p < k {
      LinCombUnitColumn(c[..k], m[..k], n, j, p);
    } else {
      LinCombZeroColumn(c[..k], m[..k], n, j);
    }
  }

  lemma {:induction false} LinCombZeroColumn(c: Vec, m: Matrix, n: nat, j: nat)
    requires |c| == |m| && Rectangular(m, n) && j < n
    requires forall r :: 0 <= r < |m| ==> !m[r][j]
    ensures !LinComb(c, m, n)[j]
  {
    if |c| > 0 {
      var k := |c| - 1;
      LinCombZeroColumn(c[..k], m[..k], n, j);
    }
  }
}
