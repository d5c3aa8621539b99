/** In-place Gauss-Jordan elimination, the loop shared by the three decoders of
    crates/holofs-core/src/rlnc.rs. A row is n coefficient columns followed by payload bytes. */
module Elimination {
  import opened Field
  import opened LinAlg
  import opened GfTables

  // ---- Row arithmetic of the inner loops -------------------------------------

  method ScaleRow(gf: Gf, row: Vec, c: Byte) returns (out: Vec)
    requires gf.Valid()
    ensures out == Scale(c, row)
  {
    hide Field.Mul;
    out := row;
    for x := 0 to |row|
      invariant |out| == |row|
      invariant forall j :: 0 <= j < x ==> out[j] == Field.Mul(c, row[j])
      invariant forall j :: x <= j < |row| ==> out[j] == row[j]
    {
      MulComm(out[x], c);
      out := out[x := gf.Mul(out[x], c)];
    }
  }

  method XorScaledRow(gf: Gf, row: Vec, f: Byte, p: Vec) returns (out: Vec)
    requires gf.Valid() && |row| == |p|
    ensures out == AddScaled(row, f, p)
  {
    hide Field.Mul;
    out := row;
    for x := 0 to |row|
      invariant |out| == |row|
      invariant forall j :: 0 <= j < x ==> out[j] == Add(row[j], Field.Mul(f, p[j]))
      invariant forall j :: x <= j < |row| ==> out[j] == row[j]
    {
      out := out[x := out[x] ^ gf.Mul(f, p[x])];
    }
  }

  // ---- One column ---------------------------------------------------------------

  /** The first m rows with column `col` cleared by the pivot row. */
  function ClearedRows(rows: seq<Vec>, n: nat, pr: nat, col: nat, m: nat): (out: seq<Vec>)
    requires Matrix(rows, n) && pr < |rows| && col < n && m <= |rows|
    ensures |out| == |rows| && Matrix(out, n)
    ensures forall r :: m <= r < |rows| ==> out[r] == rows[r]
    ensures out[pr] == rows[pr]
  {
    seq(|rows|, r requires 0 <= r < |rows| =>
      if r < m && r != pr then AddScaled(rows[r], rows[r][col], rows[pr]) else rows[r])
  }

  lemma {:induction false} ClearedKernel(rows: seq<Vec>, n: nat, pr: nat, col: nat, m: nat)
    requires Matrix(rows, n) && pr < |rows| && col < n && m <= |rows|
    ensures SameKernel(ClearedRows(rows, n, pr, col, m), rows, n)
  {
    hide SameKernel, AddScaled;
    if m == 0 {
      assert ClearedRows(rows, n, pr, col, 0) == rows;
      SameKernelRefl(rows, n);
    } else {
      ClearedKernel(rows, n, pr, col, m - 1);
      var before, after := ClearedRows(rows, n, pr, col, m - 1), ClearedRows(rows, n, pr, col, m);
      if m - 1 == pr {
        assert after == before;
      } else {
        assert after == before[m - 1 := AddScaled(before[m - 1], rows[m - 1][col], before[pr])];
        AddRowKeepsKernel(before, n, m - 1, rows[m - 1][col], pr);
        SameKernelTrans(after, before, rows, n);
      }
    }
  }

  lemma SameKernelRefl(rows: seq<Vec>, n: nat)
    requires Matrix(rows, n)
    ensures SameKernel(rows, rows, n)
  {}

  /** Row `pr` scaled to 1 in column `col` and the column cleared in every other row. */
  function Pivoted(rows: seq<Vec>, n: nat, pr: nat, sel: nat, col: nat, inv: Byte): (out: seq<Vec>)
    requires Matrix(rows, n) && pr < |rows| && sel < |rows| && col < n
    ensures |out| == |rows| && Matrix(out, n)
  {
    var swapped := rows[pr := rows[sel]][sel := rows[pr]];
    ClearedRows(swapped[pr := Scale(inv, swapped[pr])], n, pr, col, |rows|)
  }

  lemma PivotedKernel(rows: seq<Vec>, n: nat, pr: nat, sel: nat, col: nat, inv: Byte)
    requires Matrix(rows, n) && pr < |rows| && sel < |rows| && col < n && inv != 0
    ensures SameKernel(Pivoted(rows, n, pr, sel, col, inv), rows, n)
  {
    hide SameKernel, ClearedRows, Scale;
    var swapped := rows[pr := rows[sel]][sel := rows[pr]];
    assert swapped == rows[sel := rows[pr]][pr := rows[sel]];
    SwapKeepsKernel(rows, n, sel, pr);
    var scaled := swapped[pr := Scale(inv, swapped[pr])];
    ScaleKeepsKernel(swapped, n, pr, inv);
    ClearedKernel(scaled, n, pr, col, |rows|);
    SameKernelTrans(scaled, swapped, rows, n);
    SameKernelTrans(Pivoted(rows, n, pr, sel, col, inv), scaled, rows, n);
  }

  /** After the step the column is a unit column, and columns that were zero from row `pr` on are untouched. */
  lemma PivotedEntries(rows: seq<Vec>, n: nat, pr: nat, sel: nat, col: nat, inv: Byte, r: nat, c: nat)
    requires Matrix(rows, n) && pr <= sel < |rows| && col < n && r < |rows| && c < n
    requires Field.Mul(inv, rows[sel][col]) == 1
    ensures Pivoted(rows, n, pr, sel, col, inv)[r][col] == if r == pr then 1 else 0
    ensures (forall i :: pr <= i < |rows| ==> rows[i][c] == 0)
        ==> Pivoted(rows, n, pr, sel, col, inv)[r][c] == rows[r][c]
  {
    hide Add, Field.Mul;
    var swapped := rows[pr := rows[sel]][sel := rows[pr]];
    assert swapped[pr] == rows[sel];
    var x := swapped[r][col];
    MulComm(x, 1); MulOneZero(x); AddLaws(x, x, 0);
    if forall i :: pr <= i < |rows| ==> rows[i][c] == 0 {
      MulComm(inv, 0); MulOneZero(inv); MulComm(x, 0); MulOneZero(x); AddLaws(rows[r][c], 0, 0); AddLaws(0, 0, 0);
      assert swapped[r][c] == rows[r][c];
    }
  }

  /** Search, swap, scale and clear one column; `found` tells whether a pivot exists. */
  method PivotColumn(gf: Gf, rows: array<Vec>, n: nat, pr: nat, col: nat) returns (found: bool)
    requires gf.Valid() && rows !in gf.Tables() && Matrix(rows[..], n) && pr <= rows.Length && col < n
    modifies rows
    ensures found <==> exists i :: pr <= i < rows.Length && old(rows[..])[i][col] != 0
    ensures !found ==> rows[..] == old(rows[..])
    ensures found ==> exists sel: nat, inv: Byte :: (
        && pr <= sel < rows.Length && inv != 0
        && Field.Mul(inv, old(rows[..])[sel][col]) == 1
        && rows[..] == Pivoted(old(rows[..]), n, pr, sel, col, inv))
    ensures gf.Valid()
  {
    hide Field.Mul, Alpha, Scale;
    ghost var was := rows[..];
    var sel := pr;
    while sel < rows.Length && rows[sel][col] == 0
      invariant pr <= sel <= rows.Length
      invariant forall i :: pr <= i < sel ==> rows[i][col] == 0
    {
      sel := sel + 1;
    }
    if sel == rows.Length {
      return false;
    }
    rows[pr], rows[sel] := rows[sel], rows[pr];
    var inv := gf.Inv(rows[pr][col]);
    MulComm(rows[pr][col], inv);
    rows[pr] := ScaleRow(gf, rows[pr], inv);
    ghost var scaled := rows[..];
    ghost var swapped := was[pr := was[sel]][sel := was[pr]];
    assert scaled == swapped[pr := Scale(inv, swapped[pr])];
    ClearColumn(gf, rows, n, pr, col);
    found := true;
  }

  method ClearColumn(gf: Gf, rows: array<Vec>, n: nat, pr: nat, col: nat)
    requires gf.Valid() && rows !in gf.Tables() && Matrix(rows[..], n) && pr < rows.Length && col < n
    modifies rows
    ensures rows[..] == ClearedRows(old(rows[..]), n, pr, col, rows.Length)
    ensures gf.Valid()
  {
    hide Field.Mul, Alpha, AddScaled;
    ghost var was := rows[..];
    for r := 0 to rows.Length
      invariant rows[..] == ClearedRows(was, n, pr, col, r)
      invariant gf.Valid()
    {
      assert rows[r] == was[r] && rows[pr] == was[pr];
      var f := rows[r][col];
      if r != pr && f != 0 {
        rows[r] := XorScaledRow(gf, rows[r], f, rows[pr]);
      }
      AddZeroScaled(was[r], was[pr]);
      assert rows[..] == ClearedRows(was, n, pr, col, r + 1);
    }
  }

  // ---- The reduced form ----------------------------------------------------------

  /** Columns below `col` have been processed; cols[p] is the pivot column of row p. */
  ghost predicate Reduced(rows: seq<Vec>, n: nat, cols: seq<nat>, col: nat)
    requires Matrix(rows, n) && col <= n
  {
    && |cols| <= |rows|
    && (forall p :: 0 <= p < |cols| ==> cols[p] < col)
    && (forall p, r :: 0 <= p < |cols| && 0 <= r < |rows| ==> rows[r][cols[p]] == if r == p then 1 else 0)
    && (forall r, c :: |cols| <= r < |rows| && 0 <= c < col ==> rows[r][c] == 0)
  }

  lemma ReducedPivot(rows: seq<Vec>, n: nat, cols: seq<nat>, col: nat, sel: nat, inv: Byte)
    requires Matrix(rows, n) && col < n && Reduced(rows, n, cols, col)
    requires |cols| <= sel < |rows| && Field.Mul(inv, rows[sel][col]) == 1
    ensures Reduced(Pivoted(rows, n, |cols|, sel, col, inv), n, cols + [col], col + 1)
  {
    hide Pivoted, Field.Mul;
    var pr := |cols|;
    var out := Pivoted(rows, n, pr, sel, col, inv);
    forall r, c | 0 <= r < |rows| && 0 <= c <= col
      ensures out[r][c] == if c == col then (if r == pr then 1 else 0) else rows[r][c]
    {
      PivotedEntries(rows, n, pr, sel, col, inv, r, c);
    }
  }

  lemma ReducedSkip(rows: seq<Vec>, n: nat, cols: seq<nat>, col: nat)
    requires Matrix(rows, n) && col < n && Reduced(rows, n, cols, col)
    requires forall i :: |cols| <= i < |rows| ==> rows[i][col] == 0
    ensures Reduced(rows, n, cols, col + 1)
  {}

  /** Sum of the first m pivot unit vectors, each weighted by its row's entry in column f. */
  function PivotPart(rows: seq<Vec>, n: nat, cols: seq<nat>, f: nat, m: nat): (w: Vec)
    requires Matrix(rows, n) && m <= |cols| <= |rows| && f < n
    requires forall p :: 0 <= p < |cols| ==> cols[p] < n
    ensures |w| == n
  {
    if m == 0 then Zero(n)
    else AddScaled(PivotPart(rows, n, cols, f, m - 1), rows[m - 1][f], Unit(n, cols[m - 1]))
  }

  lemma {:induction false} PivotPartDot(rows: seq<Vec>, n: nat, cols: seq<nat>, col: nat, f: nat, m: nat, r: nat)
    requires Matrix(rows, n) && col <= n && Reduced(rows, n, cols, col) && m <= |cols| && f < n && r < |rows|
    ensures Dot(rows[r], PivotPart(rows, n, cols, f, m)) == if r < m then rows[r][f] else 0
  {
    hide Add, Field.Mul, Dot, AddScaled;
    if m == 0 {
      DotWithZero(rows[r]);
    } else {
      PivotPartDot(rows, n, cols, col, f, m - 1, r);
      var a := rows[m - 1][f];
      DotAddScaledRight(rows[r], PivotPart(rows, n, cols, f, m - 1), a, Unit(n, cols[m - 1]));
      DotUnit(rows[r], cols[m - 1]);
      MulComm(a, 1); MulOneZero(a); MulComm(a, 0); AddLaws(rows[r][f], 0, 0); AddLaws(0, 0, 0); AddCancel(a, 0);
    }
  }

  lemma {:induction false} PivotPartAt(rows: seq<Vec>, n: nat, cols: seq<nat>, col: nat, f: nat, m: nat, c: nat)
    requires Matrix(rows, n) && col <= n && Reduced(rows, n, cols, col) && m <= |cols| && f < n && c < n
    ensures c !in cols[..m] ==> PivotPart(rows, n, cols, f, m)[c] == 0
    ensures forall p :: 0 <= p < m && cols[p] == c ==> PivotPart(rows, n, cols, f, m)[c] == rows[p][f]
  {
    hide Add, Field.Mul, AddScaled;
    if m == 0 {
    } else {
      PivotPartAt(rows, n, cols, col, f, m - 1, c);
      var a, w := rows[m - 1][f], PivotPart(rows, n, cols, f, m - 1);
      AddUnitAt(w, a, cols[m - 1], c);
      AddCancel(a, 0); AddLaws(a, 0, 0);
      assert cols[..m] == cols[..m - 1] + [cols[m - 1]];
      PivotsDiffer(rows, n, cols, col, m - 1);
      hide Reduced, PivotPart;
    }
  }

  lemma AddUnitAt(w: Vec, a: Byte, i: nat, c: nat)
    requires i < |w| && c < |w|
    ensures AddScaled(w, a, Unit(|w|, i))[c] == if c == i then Add(w[c], a) else w[c]
  {
    hide Add, Field.Mul;
    MulComm(a, 1); MulOneZero(a); MulComm(a, 0); AddLaws(w[c], 0, 0);
  }

  lemma PivotsDiffer(rows: seq<Vec>, n: nat, cols: seq<nat>, col: nat, m: nat)
    requires Matrix(rows, n) && col <= n && Reduced(rows, n, cols, col) && m < |cols|
    ensures forall p :: 0 <= p < m ==> cols[p] != cols[m]
  {
    forall p | 0 <= p < m ensures cols[p] != cols[m] {
      assert rows[p][cols[p]] == 1 && rows[p][cols[m]] == 0;
    }
  }

  /** A processed column without a pivot gives a kernel vector: 1 in that column, minus the
      row entries in the pivot columns, 0 elsewhere. */
  lemma FreeVector(rows: seq<Vec>, n: nat, cols: seq<nat>, col: nat, f: nat) returns (y: Vec)
    requires Matrix(rows, n) && col <= n && Reduced(rows, n, cols, col) && f < col && f !in cols
    ensures |y| == n && Kills(rows, y) && y[f] == 1
    ensures forall c :: col <= c < n ==> y[c] == 0
    ensures forall p :: 0 <= p < |cols| ==> y[cols[p]] == rows[p][f]
  {
    hide Add, Field.Mul, Dot, AddScaled, PivotPart;
    var w := PivotPart(rows, n, cols, f, |cols|);
    y := AddScaled(w, 1, Unit(n, f));
    forall r | 0 <= r < |rows| ensures Dot(rows[r], y) == 0 {
      PivotPartDot(rows, n, cols, col, f, |cols|, r);
      DotAddScaledRight(rows[r], w, 1, Unit(n, f));
      DotUnit(rows[r], f);
      MulOneZero(rows[r][f]); AddLaws(rows[r][f], 0, 0); AddLaws(0, 0, 0);
    }
    assert cols[..|cols|] == cols;
    forall c | 0 <= c < n ensures y[c] == if c == f then 1 else w[c] {
      PivotPartAt(rows, n, cols, col, f, |cols|, c);
      AddScaledUnit(w, f, c);
    }
    forall p | 0 <= p < |cols| ensures y[cols[p]] == rows[p][f] {
      PivotPartAt(rows, n, cols, col, f, |cols|, cols[p]);
    }
    forall c | col <= c < n ensures y[c] == 0 {
      PivotPartAt(rows, n, cols, col, f, |cols|, c);
    }
  }

  lemma AddScaledUnit(w: Vec, f: nat, c: nat)
    requires f < |w| && c < |w|
    ensures AddScaled(w, 1, Unit(|w|, f))[c] == if c == f then Add(w[c], 1) else w[c]
    ensures w[c] == 0 ==> Add(w[c], 1) == 1
  {
    hide Add, Field.Mul;
    MulOneZero(1); MulOneZero(0); AddLaws(w[c], 0, 0); AddCancel(1, 0);
  }

  /** A row whose only nonzero entry against z lies at c, where it is 1, forces z[c] to zero. */
  lemma CleanRow(row: Vec, z: Vec, c: nat)
    requires |row| == |z| && c < |row| && row[c] == 1
    requires forall i :: 0 <= i < |row| && i != c ==> row[i] == 0 || z[i] == 0
    requires Dot(row, z) == 0
    ensures z[c] == 0
  {
    hide Add, Field.Mul;
    DotNSingle(row, z, |row|, c);
    MulOneZero(z[c]);
  }
}
