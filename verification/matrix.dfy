/**
  `multiplyMatrix(M, arr)`: a matrix times a column vector, the linear step of
  the CIE conversions (a 3×3 matrix and a 3-vector there). Values are
  immutable sequences, so the result is always a new vector and the inputs
  cannot change.
 */
module Matrix {

  /** Σ_j row[j]·v[j]. */
  function Dot(row: seq<real>, v: seq<real>): real
    requires |row| == |v|
  {
    if |row| == 0 then 0.0 else row[0] * v[0] + Dot(row[1..], v[1..])
  }

  /** Every row of `M` is as long as `v` (the caller's shape guarantee). */
  predicate Conforms(M: seq<seq<real>>, v: seq<real>) {
    forall i :: 0 <= i < |M| ==> |M[i]| == |v|
  }

  /** The product has one entry per row of `M`, and entry i is Σ_j M[i][j]·v[j]. */
  function MultiplyMatrix(M: seq<seq<real>>, v: seq<real>): (r: seq<real>)
    requires Conforms(M, v)
    ensures |r| == |M|
    ensures forall i :: 0 <= i < |M| ==> r[i] == Dot(M[i], v)
  {
    seq(|M|, i requires 0 <= i < |M| => Dot(M[i], v))
  }

  function Zeros(n: nat): (z: seq<real>)
    ensures |z| == n
    ensures forall j :: 0 <= j < n ==> z[j] == 0.0
  {
    seq(n, j => 0.0)
  }

  /** Row i of the n×n identity matrix. */
  function UnitRow(n: nat, i: nat): (e: seq<real>)
    ensures |e| == n
  {
    seq(n, j => if j == i then 1.0 else 0.0)
  }

  function Identity(n: nat): (I: seq<seq<real>>)
    ensures |I| == n
    ensures forall i :: 0 <= i < n ==> I[i] == UnitRow(n, i)
  {
    seq(n, (i: int) requires 0 <= i < n => UnitRow(n, i))
  }

  function Add(x: seq<real>, y: seq<real>): (z: seq<real>)
    requires |x| == |y|
    ensures |z| == |x|
    ensures forall j :: 0 <= j < |x| ==> z[j] == x[j] + y[j]
  {
    seq(|x|, j requires 0 <= j < |x| => x[j] + y[j])
  }

  function Scale(k: real, x: seq<real>): (z: seq<real>)
    ensures |z| == |x|
    ensures forall j :: 0 <= j < |x| ==> z[j] == k * x[j]
  {
    seq(|x|, j requires 0 <= j < |x| => k * x[j])
  }

  /** A dot product with the zero vector is zero. */
  lemma {:induction false} DotZero(row: seq<real>)
    ensures Dot(row, Zeros(|row|)) == 0.0
  {
    if |row| > 0 {
      assert Zeros(|row|)[1..] == Zeros(|row| - 1);
      DotZero(row[1..]);
    }
  }

  /** Picking coordinate i with a unit vector: Σ_j [i = j + offset]·v[j]. */
  lemma {:induction false} DotUnit(v: seq<real>, n: nat, i: nat, offset: nat)
    requires |v| + offset == n
    requires offset <= i < n
    ensures Dot(UnitRow(n, i)[offset..], v) == v[i - offset]
  {
    var e := UnitRow(n, i)[offset..];
    if i == offset {
      assert e[0] == 1.0;
      DotUnitOff(v[1..], n, i, offset + 1);
      assert e[1..] == UnitRow(n, i)[offset + 1..];
    } else {
      assert e[0] == 0.0;
      assert e[1..] == UnitRow(n, i)[offset + 1..];
      DotUnit(v[1..], n, i, offset + 1);
    }
  }

  /** Past coordinate i the unit row is all zeros. */
  lemma {:induction false} DotUnitOff(v: seq<real>, n: nat, i: nat, offset: nat)
    requires |v| + offset == n
    requires i < offset
    ensures Dot(UnitRow(n, i)[offset..], v) == 0.0
  {
    if |v| > 0 {
      assert UnitRow(n, i)[offset..][1..] == UnitRow(n, i)[offset + 1..];
      DotUnitOff(v[1..], n, i, offset + 1);
    }
  }

  /** Dot distributes over vector addition. */
  lemma {:induction false} DotAdd(row: seq<real>, x: seq<real>, y: seq<real>)
    requires |row| == |x| == |y|
    ensures Dot(row, Add(x, y)) == Dot(row, x) + Dot(row, y)
  {
    if |row| > 0 {
      assert Add(x, y)[1..] == Add(x[1..], y[1..]);
      DotAdd(row[1..], x[1..], y[1..]);
    }
  }

  /** Dot commutes with scaling. */
  lemma {:induction false} DotScale(row: seq<real>, k: real, x: seq<real>)
    requires |row| == |x|
    ensures Dot(row, Scale(k, x)) == k * Dot(row, x)
  {
    if |row| > 0 {
      forall j | 0 <= j < |x| - 1
        ensures Scale(k, x)[1..][j] == Scale(k, x[1..])[j]
      {
        assert Scale(k, x)[1..][j] == k * x[j + 1];
      }
      assert Scale(k, x)[1..] == Scale(k, x[1..]);
      DotScale(row[1..], k, x[1..]);
      assert row[0] * (k * x[0]) == k * (row[0] * x[0]);
    }
  }

  /** The identity matrix returns its argument unchanged. */
  lemma MultiplyIdentity(v: seq<real>)
    ensures MultiplyMatrix(Identity(|v|), v) == v
  {
    var r := MultiplyMatrix(Identity(|v|), v);
    forall i | 0 <= i < |v|
      ensures r[i] == v[i]
    {
      DotUnit(v, |v|, i, 0);
      assert UnitRow(|v|, i)[0..] == UnitRow(|v|, i);
    }
  }

  /** The zero vector maps to the zero vector. */
  lemma MultiplyZero(M: seq<seq<real>>, n: nat)
    requires Conforms(M, Zeros(n))
    ensures MultiplyMatrix(M, Zeros(n)) == Zeros(|M|)
  {
    forall i | 0 <= i < |M|
      ensures MultiplyMatrix(M, Zeros(n))[i] == 0.0
    {
      DotZero(M[i]);
    }
  }

  /** The map is additive: M(x + y) = Mx + My. */
  lemma MultiplyAdditive(M: seq<seq<real>>, x: seq<real>, y: seq<real>)
    requires |x| == |y|
    requires Conforms(M, x)
    ensures Conforms(M, Add(x, y)) && Conforms(M, y)
    ensures MultiplyMatrix(M, Add(x, y)) == Add(MultiplyMatrix(M, x), MultiplyMatrix(M, y))
  {
    forall i | 0 <= i < |M|
      ensures MultiplyMatrix(M, Add(x, y))[i] == MultiplyMatrix(M, x)[i] + MultiplyMatrix(M, y)[i]
    {
      DotAdd(M[i], x, y);
    }
  }

  /** The map is homogeneous: M(k·x) = k·(Mx). */
  lemma MultiplyHomogeneous(M: seq<seq<real>>, k: real, x: seq<real>)
    requires Conforms(M, x)
    ensures Conforms(M, Scale(k, x))
    ensures MultiplyMatrix(M, Scale(k, x)) == Scale(k, MultiplyMatrix(M, x))
  {
    forall i | 0 <= i < |M|
      ensures MultiplyMatrix(M, Scale(k, x))[i] == k * MultiplyMatrix(M, x)[i]
    {
      DotScale(M[i], k, x);
    }
  }

  /** The 3×3 case written out: each entry is a three-term sum. */
  lemma MultiplyThree(M: seq<seq<real>>, v: seq<real>)
    requires |M| == 3 && |v| == 3 && Conforms(M, v)
    ensures var r := MultiplyMatrix(M, v);
      forall i :: 0 <= i < 3 ==> r[i] == M[i][0] * v[0] + M[i][1] * v[1] + M[i][2] * v[2]
  {
    forall i | 0 <= i < 3
      ensures Dot(M[i], v) == M[i][0] * v[0] + M[i][1] * v[1] + M[i][2] * v[2]
    {
      var row := M[i];
      assert Dot(row[2..], v[2..]) == row[2] * v[2] + Dot(row[3..], v[3..]);
      assert Dot(row[1..], v[1..]) == row[1] * v[1] + Dot(row[2..], v[2..]) by {
        assert row[1..][1..] == row[2..] && v[1..][1..] == v[2..];
      }
      assert Dot(row[2..], v[2..]) == row[2] * v[2] by {
        assert row[2..][1..] == row[3..] && v[2..][1..] == v[3..];
      }
    }
  }
}
