/** Linear algebra over GF(2^8): dot products, linear combinations, kernels and spans of
    lists of vectors. A list of vectors is a matrix given by its rows. */
module LinAlg {
  import opened Field

  type Vec = seq<Byte>

  ghost predicate Matrix(rows: seq<Vec>, n: nat) {
    forall r :: 0 <= r < |rows| ==> |rows[r]| == n
  }

  function Zero(n: nat): (z: Vec)
    ensures |z| == n
  {
    seq(n, _ => 0)
  }

  function Unit(n: nat, i: nat): (e: Vec)
    requires i < n
    ensures |e| == n
  {
    seq(n, j => if j == i then 1 else 0)
  }

  function Plus(u: Vec, v: Vec): (w: Vec)
    requires |u| == |v|
    ensures |w| == |u|
    ensures forall j :: 0 <= j < |u| ==> w[j] == Add(u[j], v[j])
  {
    seq(|u|, j requires 0 <= j < |u| => Add(u[j], v[j]))
  }

  function Scale(c: Byte, v: Vec): (w: Vec)
    ensures |w| == |v|
    ensures forall j :: 0 <= j < |v| ==> w[j] == Mul(c, v[j])
  {
    seq(|v|, j requires 0 <= j < |v| => Mul(c, v[j]))
  }

  /** u + c * v */
  function AddScaled(u: Vec, c: Byte, v: Vec): (w: Vec)
    requires |u| == |v|
    ensures |w| == |u|
  {
    Plus(u, Scale(c, v))
  }

  /** Sum of the first n products u[i] * v[i]. */
  function DotN(u: Vec, v: Vec, n: nat): Byte
    requires n <= |u| && n <= |v|
  {
    if n == 0 then 0 else Add(DotN(u, v, n - 1), Mul(u[n - 1], v[n - 1]))
  }

  function Dot(u: Vec, v: Vec): Byte
    requires |u| == |v|
  {
    DotN(u, v, |u|)
  }

  /** Linear combination of the first n vectors of a list. */
  function ComboN(c: Vec, vs: seq<Vec>, n: nat, len: nat): (w: Vec)
    requires n <= |c| && n <= |vs| && Matrix(vs, len)
    ensures |w| == len
  {
    if n == 0 then Zero(len) else AddScaled(ComboN(c, vs, n - 1, len), c[n - 1], vs[n - 1])
  }

  function Combo(c: Vec, vs: seq<Vec>, len: nat): (w: Vec)
    requires |c| == |vs| && Matrix(vs, len)
    ensures |w| == len
  {
    ComboN(c, vs, |c|, len)
  }

  function Column(vs: seq<Vec>, j: nat): (w: Vec)
    requires forall r :: 0 <= r < |vs| ==> j < |vs[r]|
    ensures |w| == |vs|
  {
    seq(|vs|, r requires 0 <= r < |vs| => vs[r][j])
  }

  /** z is orthogonal to every row. */
  ghost predicate Kills(rows: seq<Vec>, z: Vec)
    requires Matrix(rows, |z|)
  {
    forall r :: 0 <= r < |rows| ==> Dot(rows[r], z) == 0
  }

  ghost predicate SameKernel(a: seq<Vec>, b: seq<Vec>, n: nat)
    requires Matrix(a, n) && Matrix(b, n)
  {
    forall z: Vec :: |z| == n ==> (Kills(a, z) <==> Kills(b, z))
  }

  ghost predicate InSpan(v: Vec, vs: seq<Vec>)
    requires Matrix(vs, |v|)
  {
    exists c: Vec :: |c| == |vs| && v == Combo(c, vs, |v|)
  }

  // ---- Bilinearity --------------------------------------------------------

  lemma {:induction false} DotNExt(u: Vec, u': Vec, v: Vec, v': Vec, n: nat)
    requires n <= |u| && n <= |v| && n <= |u'| && n <= |v'|
    requires forall i :: 0 <= i < n ==> u[i] == u'[i] && v[i] == v'[i]
    ensures DotN(u, v, n) == DotN(u', v', n)
  {
    hide Add, Mul;
    if n == 0 {
    } else {
      DotNExt(u, u', v, v', n - 1);
    }
  }

  lemma {:induction false} DotNPlus(u: Vec, v: Vec, z: Vec, n: nat)
    requires |u| == |v| && n <= |u| && n <= |z|
    ensures DotN(Plus(u, v), z, n) == Add(DotN(u, z, n), DotN(v, z, n))
  {
    hide Add, Mul;
    if n == 0 {
      AddLaws(0, 0, 0);
    } else {
      DotNPlus(u, v, z, n - 1);
      MulAddLeft(u[n - 1], v[n - 1], z[n - 1]);
      AddSwap(DotN(u, z, n - 1), DotN(v, z, n - 1), Mul(u[n - 1], z[n - 1]), Mul(v[n - 1], z[n - 1]));
    }
  }

  lemma {:induction false} DotNScale(c: Byte, v: Vec, z: Vec, n: nat)
    requires n <= |v| && n <= |z|
    ensures DotN(Scale(c, v), z, n) == Mul(c, DotN(v, z, n))
  {
    hide Add, Mul;
    if n == 0 {
      MulOneZero(c); MulComm(c, 0);
    } else {
      DotNScale(c, v, z, n - 1);
      MulAssoc(c, v[n - 1], z[n - 1]);
      MulAddRight(c, DotN(v, z, n - 1), Mul(v[n - 1], z[n - 1]));
    }
  }

  lemma {:induction false} DotNComm(u: Vec, v: Vec, n: nat)
    requires n <= |u| && n <= |v|
    ensures DotN(u, v, n) == DotN(v, u, n)
  {
    hide Add, Mul;
    if n == 0 {
    } else {
      DotNComm(u, v, n - 1); MulComm(u[n - 1], v[n - 1]);
    }
  }

  lemma DotAddScaled(u: Vec, c: Byte, v: Vec, z: Vec)
    requires |u| == |v| == |z|
    ensures Dot(AddScaled(u, c, v), z) == Add(Dot(u, z), Mul(c, Dot(v, z)))
  {
    hide Add, Mul;
    DotNPlus(u, Scale(c, v), z, |z|);
    DotNScale(c, v, z, |z|);
  }

  lemma DotAddScaledRight(v: Vec, x: Vec, c: Byte, y: Vec)
    requires |v| == |x| == |y|
    ensures Dot(v, AddScaled(x, c, y)) == Add(Dot(v, x), Mul(c, Dot(v, y)))
  {
    hide Add, Mul;
    DotAddScaled(x, c, y, v);
    DotNComm(AddScaled(x, c, y), v, |v|); DotNComm(x, v, |v|); DotNComm(y, v, |v|);
  }

  lemma {:induction false} DotNZero(u: Vec, z: Vec, n: nat)
    requires n <= |u| && n <= |z|
    requires forall i :: 0 <= i < n ==> u[i] == 0 || z[i] == 0
    ensures DotN(u, z, n) == 0
  {
    hide Add, Mul;
    if n == 0 {
    } else {
      DotNZero(u, z, n - 1);
      MulOneZero(z[n - 1]); MulOneZero(u[n - 1]); MulComm(u[n - 1], 0); AddLaws(0, 0, 0);
    }
  }

  /** When at most one product can be nonzero, it is the dot product. */
  lemma {:induction false} DotNSingle(u: Vec, z: Vec, n: nat, i: nat)
    requires i < n <= |u| && n <= |z|
    requires forall j :: 0 <= j < n && j != i ==> u[j] == 0 || z[j] == 0
    ensures DotN(u, z, n) == Mul(u[i], z[i])
  {
    hide Add, Mul;
    var p := Mul(u[i], z[i]);
    AddCancel(p, 0); AddLaws(p, 0, 0);
    if i == n - 1 {
      DotNZero(u, z, n - 1);
    } else {
      DotNSingle(u, z, n - 1, i);
      MulOneZero(z[n - 1]); MulOneZero(u[n - 1]); MulComm(u[n - 1], 0);
    }
  }

  lemma DotUnit(v: Vec, i: nat)
    requires i < |v|
    ensures Dot(v, Unit(|v|, i)) == v[i]
    ensures Dot(Unit(|v|, i), v) == v[i]
  {
    hide Add, Mul;
    DotNSingle(v, Unit(|v|, i), |v|, i);
    DotNSingle(Unit(|v|, i), v, |v|, i);
    MulOneZero(v[i]); MulComm(v[i], 1);
  }

  // ---- Combinations -------------------------------------------------------

  /** The j-th entry of a combination is the dot product with the j-th column. */
  lemma {:induction false} ComboNAt(c: Vec, vs: seq<Vec>, n: nat, len: nat, j: nat)
    requires n <= |c| && n <= |vs| && Matrix(vs, len) && j < len
    ensures ComboN(c, vs, n, len)[j] == DotN(c, Column(vs, j), n)
  {
    hide Add, Mul;
    if n == 0 {
    } else {
      ComboNAt(c, vs, n - 1, len, j);
    }
  }

  /** A combination inherits every z orthogonal to its parts. */
  lemma {:induction false} ComboNKilled(c: Vec, vs: seq<Vec>, n: nat, z: Vec)
    requires n <= |c| && n <= |vs| && Matrix(vs, |z|)
    requires forall r :: 0 <= r < n ==> Dot(vs[r], z) == 0
    ensures Dot(ComboN(c, vs, n, |z|), z) == 0
  {
    hide Add, Mul;
    if n == 0 {
      DotNZero(Zero(|z|), z, |z|);
    } else {
      ComboNKilled(c, vs, n - 1, z);
      DotAddScaled(ComboN(c, vs, n - 1, |z|), c[n - 1], vs[n - 1], z);
      MulOneZero(c[n - 1]); MulComm(c[n - 1], 0); AddLaws(0, 0, 0);
    }
  }

  lemma {:induction false} ComboNExt(c: Vec, c': Vec, vs: seq<Vec>, vs': seq<Vec>, n: nat, len: nat)
    requires n <= |c| && n <= |c'| && n <= |vs| && n <= |vs'| && Matrix(vs, len) && Matrix(vs', len)
    requires forall i :: 0 <= i < n ==> c[i] == c'[i] && vs[i] == vs'[i]
    ensures ComboN(c, vs, n, len) == ComboN(c', vs', n, len)
  {
    hide Add, Mul;
    if n == 0 {
    } else {
      ComboNExt(c, c', vs, vs', n - 1, len);
    }
  }

  /** A span is closed under adding a multiple of one more vector of the list. */
  lemma SpanExtend(v: Vec, vs: seq<Vec>, a: Byte, w: Vec)
    requires |v| == |w| && Matrix(vs, |v|)
    requires InSpan(v, vs)
    ensures InSpan(AddScaled(v, a, w), vs + [w])
  {
    hide Add, Mul;
    var c: Vec :| |c| == |vs| && v == Combo(c, vs, |v|);
    ComboNExt(c, c + [a], vs, vs + [w], |vs|, |v|);
    assert AddScaled(v, a, w) == Combo(c + [a], vs + [w], |v|);
  }

  lemma CancelScaled(v: Vec, a: Byte, w: Vec)
    requires |v| == |w|
    ensures AddScaled(AddScaled(v, a, w), a, w) == v
  {
    hide Add, Mul;
    forall j | 0 <= j < |v| ensures AddScaled(AddScaled(v, a, w), a, w)[j] == v[j] {
      AddCancel(v[j], Mul(a, w[j]));
    }
  }

  lemma SpanZero(vs: seq<Vec>, n: nat)
    requires Matrix(vs, n)
    ensures InSpan(Zero(n), vs)
  {
    hide Add, Mul;
    var c := Zero(|vs|);
    forall j | 0 <= j < n ensures Combo(c, vs, n)[j] == 0 {
      ComboNAt(c, vs, |vs|, n, j);
      DotNZero(c, Column(vs, j), |vs|);
    }
    assert Zero(n) == Combo(c, vs, n);
  }

  // ---- Duality: a vector outside a span is seen by some z in the kernel -----

  /** Either v is a combination of vs, or some z orthogonal to all of vs is not orthogonal to v. */
  lemma {:induction false} Separate(v: Vec, vs: seq<Vec>) returns (z: Vec)
    requires Matrix(vs, |v|) && !InSpan(v, vs)
    ensures |z| == |v| && Kills(vs, z) && Dot(v, z) != 0
    decreases |vs|
  {
    hide Add, Mul, Dot, Combo, AddScaled;
    if vs == [] {
      SpanZero(vs, |v|);
      var i := NonzeroEntry(v);
      z := Unit(|v|, i);
      DotUnit(v, i);
    } else {
      var m := |vs| - 1;
      var us, w := vs[..m], vs[m];
      assert vs == us + [w];
      if InSpan(v, us) { SpanExtend(v, us, 0, w); AddZeroScaled(v, w); }
      var z1 := Separate(v, us);
      if Dot(w, z1) == 0 {
        z := z1;
      } else {
        var a := Mul(Inv(Dot(w, z1)), Dot(v, z1));
        var v' := AddScaled(v, a, w);
        if InSpan(v', us) { SpanExtend(v', us, a, w); CancelScaled(v, a, w); }
        var z2 := Separate(v', us);
        z := SeparateStep(v, us, w, z1, z2, a);
      }
      forall r | 0 <= r < |vs| ensures Dot(vs[r], z) == 0 {
        if r < m { assert vs[r] == us[r]; }
      }
    }
  }

  lemma NonzeroEntry(v: Vec) returns (i: nat)
    requires v != Zero(|v|)
    ensures i < |v| && v[i] != 0
  {
    i :| i < |v| && v[i] != Zero(|v|)[i];
  }

  lemma AddZeroScaled(v: Vec, w: Vec)
    requires |v| == |w|
    ensures AddScaled(v, 0, w) == v
  {
    hide Add, Mul;
    forall j | 0 <= j < |v| ensures AddScaled(v, 0, w)[j] == v[j] {
      MulOneZero(w[j]); AddLaws(v[j], 0, 0);
    }
  }

  /** The step of Separate: correct z2 by a multiple of z1 so that w is killed too. */
  lemma SeparateStep(v: Vec, us: seq<Vec>, w: Vec, z1: Vec, z2: Vec, a: Byte) returns (z: Vec)
    requires |v| == |w| == |z1| == |z2| && Matrix(us, |v|)
    requires Kills(us, z1) && Kills(us, z2) && Dot(w, z1) != 0
    requires a == Mul(Inv(Dot(w, z1)), Dot(v, z1))
    requires Dot(AddScaled(v, a, w), z2) != 0
    ensures |z| == |v| && Kills(us, z) && Dot(w, z) == 0 && Dot(v, z) != 0
  {
    hide Add, Mul, Dot, AddScaled;
    var p, q := Dot(w, z1), Dot(w, z2);
    var b := Mul(Inv(p), q);
    z := AddScaled(z2, b, z1);
    forall r | 0 <= r < |us| ensures Dot(us[r], z) == 0 {
      DotAddScaledRight(us[r], z2, b, z1);
      MulComm(b, 0); MulOneZero(b); AddLaws(0, 0, 0);
    }
    DotAddScaledRight(w, z2, b, z1);
    MulAssoc(Inv(p), q, p); MulComm(q, p); MulCancel(p, q); AddLaws(q, 0, 0);
    DotAddScaledRight(v, z2, b, z1);
    DotAddScaled(v, a, w, z2);
    ShareFactor(Inv(p), Dot(v, z1), q);
  }

  lemma ShareFactor(c: Byte, x: Byte, y: Byte)
    ensures Mul(Mul(c, x), y) == Mul(Mul(c, y), x)
  {
    hide Mul;
    MulAssoc(c, x, y); MulAssoc(c, y, x); MulComm(x, y);
  }

  /** The span of a list is what its kernel does not see. */
  lemma SpanIsDoubleKernel(v: Vec, vs: seq<Vec>)
    requires Matrix(vs, |v|)
    ensures InSpan(v, vs) <==> forall z: Vec :: |z| == |v| && Kills(vs, z) ==> Dot(v, z) == 0
  {
    hide Add, Mul;
    if InSpan(v, vs) {
      var c: Vec :| |c| == |vs| && v == Combo(c, vs, |v|);
      forall z: Vec | |z| == |v| && Kills(vs, z) ensures Dot(v, z) == 0 {
        ComboNKilled(c, vs, |vs|, z);
      }
    } else {
      var z := Separate(v, vs);
    }
  }

  ghost predicate TrivialKernel(vs: seq<Vec>, n: nat)
    requires Matrix(vs, n)
  {
    forall y: Vec :: |y| == n && Kills(vs, y) ==> y == Zero(n)
  }

  ghost predicate SpansAll(vs: seq<Vec>, n: nat)
    requires Matrix(vs, n)
  {
    forall v: Vec :: |v| == n ==> InSpan(v, vs)
  }

  /** Vectors span the whole space exactly when nothing but zero is orthogonal to all of them. */
  lemma SpansAllIsTrivialKernel(vs: seq<Vec>, n: nat)
    requires Matrix(vs, n)
    ensures SpansAll(vs, n) <==> TrivialKernel(vs, n)
  {
    hide Add, Mul, Dot, Kills, InSpan;
    if TrivialKernel(vs, n) {
      forall v: Vec | |v| == n ensures InSpan(v, vs) {
        if !InSpan(v, vs) {
          var z := Separate(v, vs);
          DotWithZero(v);
        }
      }
    }
    if SpansAll(vs, n) {
      forall y: Vec | |y| == n && Kills(vs, y) ensures y == Zero(n) {
        forall i | 0 <= i < n ensures y[i] == 0 {
          SpanIsDoubleKernel(Unit(n, i), vs);
          DotUnit(y, i);
        }
      }
    }
  }

  lemma DotWithZero(v: Vec)
    ensures Dot(v, Zero(|v|)) == 0
    ensures Dot(Zero(|v|), v) == 0
  {
    DotNZero(v, Zero(|v|), |v|);
    DotNZero(Zero(|v|), v, |v|);
  }

  // ---- Fewer equations than unknowns ---------------------------------------

  /** Subtract from `row` the multiple of `p` that clears the last entry, and drop that entry. */
  function Cleared(row: Vec, p: Vec, c: Byte): (w: Vec)
    requires |row| == |p| > 0
    ensures |w| == |row| - 1
  {
    AddScaled(row, c, p)[..|row| - 1]
  }

  /** A homogeneous system with fewer equations than unknowns has a nonzero solution. */
  lemma {:induction false} Underdetermined(vs: seq<Vec>, n: nat) returns (y: Vec)
    requires Matrix(vs, n) && |vs| < n
    ensures |y| == n && Kills(vs, y) && y != Zero(n)
    decreases n
  {
    hide Add, Mul, Dot, AddScaled;
    if forall r :: 0 <= r < |vs| ==> vs[r][n - 1] == 0 {
      y := Unit(n, n - 1);
      assert y[n - 1] == 1;
      forall r | 0 <= r < |vs| ensures Dot(vs[r], y) == 0 { DotUnit(vs[r], n - 1); }
    } else {
      var p :| 0 <= p < |vs| && vs[p][n - 1] != 0;
      var inv := Inv(vs[p][n - 1]);
      var others := vs[..p] + vs[p + 1..];
      var ws := seq(|others|, r requires 0 <= r < |others| =>
        Cleared(others[r], vs[p], Mul(inv, others[r][n - 1])));
      var x := Underdetermined(ws, n - 1);
      y := x + [Mul(inv, Dot(vs[p][..n - 1], x))];
      LastSolves(vs[p], x);
      var i := NonzeroEntry(x);
      assert y[i] != 0;
      forall r | 0 <= r < |vs| ensures Dot(vs[r], y) == 0 {
        if r != p {
          var o := if r < p then r else r - 1;
          assert others[o] == vs[r] && Dot(ws[o], x) == 0;
          ClearedSolves(vs[r], vs[p], Mul(inv, vs[r][n - 1]), x, y);
        }
      }
    }
  }

  lemma DotSnoc(v: Vec, y: Vec)
    requires |v| == |y| > 0
    ensures Dot(v, y) == Add(Dot(v[..|v| - 1], y[..|v| - 1]), Mul(v[|v| - 1], y[|v| - 1]))
  {
    DotNExt(v, v[..|v| - 1], y, y[..|v| - 1], |v| - 1);
  }

  lemma LastSolves(p: Vec, x: Vec)
    requires |p| == |x| + 1 && p[|x|] != 0
    ensures Dot(p, x + [Mul(Inv(p[|x|]), Dot(p[..|x|], x))]) == 0
  {
    hide Add, Mul, Dot;
    var d := Dot(p[..|x|], x);
    var y := x + [Mul(Inv(p[|x|]), d)];
    assert y[..|x|] == x;
    DotSnoc(p, y);
    MulAssoc(p[|x|], Inv(p[|x|]), d);
    MulOneZero(d); AddLaws(d, 0, 0);
  }

  lemma ClearedSolves(row: Vec, p: Vec, c: Byte, x: Vec, y: Vec)
    requires |row| == |p| == |y| > 0 && y[..|y| - 1] == x
    requires p[|p| - 1] != 0 && c == Mul(Inv(p[|p| - 1]), row[|p| - 1])
    requires Dot(p, y) == 0 && Dot(Cleared(row, p, c), x) == 0
    ensures Dot(row, y) == 0
  {
    hide Add, Mul, Dot;
    var n := |p| - 1;
    DotSnoc(AddScaled(row, c, p), y);
    DotAddScaled(row, c, p, y);
    MulComm(c, p[n]); MulCancel(p[n], row[n]);
    MulAssoc(p[n], Inv(p[n]), row[n]); MulOneZero(row[n]); AddLaws(row[n], 0, 0);
    MulOneZero(y[n]);
    MulComm(c, 0); MulOneZero(c); AddLaws(Dot(row, y), 0, 0); AddLaws(0, 0, 0);
  }

  // ---- Row operations keep the kernel ---------------------------------------

  lemma SameKernelTrans(a: seq<Vec>, b: seq<Vec>, c: seq<Vec>, n: nat)
    requires Matrix(a, n) && Matrix(b, n) && Matrix(c, n)
    requires SameKernel(a, b, n) && SameKernel(b, c, n)
    ensures SameKernel(a, c, n)
  {
    hide Kills;
  }

  lemma SwapKeepsKernel(rows: seq<Vec>, n: nat, i: nat, j: nat)
    requires Matrix(rows, n) && i < |rows| && j < |rows|
    ensures SameKernel(rows[i := rows[j]][j := rows[i]], rows, n)
  {
    hide Dot;
    var rows' := rows[i := rows[j]][j := rows[i]];
    forall z: Vec | |z| == n ensures Kills(rows', z) <==> Kills(rows, z) {
      assert rows'[i] == rows[j] && rows'[j] == rows[i];
      if Kills(rows', z) {
        forall r | 0 <= r < |rows| ensures Dot(rows[r], z) == 0 {
          if r != i && r != j { assert rows'[r] == rows[r]; }
        }
      }
    }
  }

  lemma ScaleKeepsKernel(rows: seq<Vec>, n: nat, i: nat, c: Byte)
    requires Matrix(rows, n) && i < |rows| && c != 0
    ensures SameKernel(rows[i := Scale(c, rows[i])], rows, n)
  {
    hide Dot, Mul;
    var rows' := rows[i := Scale(c, rows[i])];
    forall z: Vec | |z| == n ensures Kills(rows', z) <==> Kills(rows, z) {
      assert Dot(rows'[i], z) == Mul(c, Dot(rows[i], z)) by { DotNScale(c, rows[i], z, n); DotIsDotN(rows'[i], z); DotIsDotN(rows[i], z); }
      MulCancel(c, Dot(rows[i], z));
      OthersSame(rows, rows', i, z);
    }
  }

  lemma DotIsDotN(u: Vec, v: Vec)
    requires |u| == |v|
    ensures Dot(u, v) == DotN(u, v, |u|)
  {}

  lemma OthersSame(rows: seq<Vec>, rows': seq<Vec>, i: nat, z: Vec)
    requires Matrix(rows, |z|) && Matrix(rows', |z|) && i < |rows| == |rows'|
    requires forall r :: 0 <= r < |rows| && r != i ==> rows'[r] == rows[r]
    requires Dot(rows'[i], z) == 0 <==> Dot(rows[i], z) == 0
    ensures Kills(rows', z) <==> Kills(rows, z)
  {
    hide Dot;
    if Kills(rows', z) {
      forall r | 0 <= r < |rows| ensures Dot(rows[r], z) == 0 { assert Dot(rows'[r], z) == 0; }
    }
  }

  lemma AddRowKeepsKernel(rows: seq<Vec>, n: nat, i: nat, c: Byte, p: nat)
    requires Matrix(rows, n) && i < |rows| && p < |rows| && i != p
    ensures SameKernel(rows[i := AddScaled(rows[i], c, rows[p])], rows, n)
  {
    hide Dot, Mul, Add, AddScaled;
    var rows' := rows[i := AddScaled(rows[i], c, rows[p])];
    forall z: Vec | |z| == n ensures Kills(rows', z) <==> Kills(rows, z) {
      DotAddScaled(rows[i], c, rows[p], z);
      MulComm(c, 0); MulOneZero(c); AddLaws(Dot(rows[i], z), 0, 0);
      if Dot(rows[p], z) == 0 {
        OthersSame(rows, rows', i, z);
      } else {
        assert rows'[p] == rows[p];
      }
    }
  }
}
