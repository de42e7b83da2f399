/** Matrices over the field, and inversion by Gauss-Jordan elimination. */
module Matrix {
  import opened Gf16
  import opened Gf16Order
  import opened Gf16Tables
  import opened Format

  type Vec = seq<Elem>
  type Mat = seq<Vec>

  function Dot(r: Vec, z: Vec): Elem
    requires |r| == |z|
  {
    if |r| == 0 then 0 else Add(Mul(r[0], z[0]), Dot(r[1..], z[1..]))
  }

  predicate Shaped(m: Mat, rows: nat, cols: nat) {
    |m| == rows && forall r :: 0 <= r < rows ==> |m[r]| == cols
  }

  predicate Square(m: Mat) {
    Shaped(m, |m|, |m|)
  }

  function Apply(m: Mat, x: Vec): (y: Vec)
    requires Shaped(m, |m|, |x|)
    ensures |y| == |m|
  {
    seq(|m|, i requires 0 <= i < |m| => Dot(m[i], x))
  }

  function Zeros(n: nat): Vec { seq(n, _ => 0) }

  function IdentityRow(width: nat, oneAt: nat): (r: Vec)
    ensures |r| == width
  {
    seq(width, k => if k == oneAt then 1 else 0)
  }

  // Some non-zero vector is sent to zero.
  ghost predicate Singular(m: Mat)
    requires Square(m)
  {
    exists x: Vec :: |x| == |m| && x != Zeros(|m|) && Apply(m, x) == Zeros(|m|)
  }

  ghost predicate Inverses(a: Mat, b: Mat)
    requires Square(a) && Shaped(b, |a|, |a|)
  {
    forall x: Vec, y: Vec :: |x| == |a| && |y| == |a| ==> (Apply(a, x) == y <==> Apply(b, y) == x)
  }

  // ---------- dot products are bilinear ----------

  function Scaled(r: Vec, c: Elem): (s: Vec)
    ensures |s| == |r|
  {
    seq(|r|, i requires 0 <= i < |r| => Mul(r[i], c))
  }

  function AddScaled(r: Vec, f: Elem, p: Vec): (s: Vec)
    requires |r| == |p|
    ensures |s| == |r|
  {
    seq(|r|, i requires 0 <= i < |r| => Add(r[i], Mul(f, p[i])))
  }

  lemma {:induction false} DotScaled(r: Vec, c: Elem, z: Vec)
    requires |r| == |z|
    ensures Dot(Scaled(r, c), z) == Mul(c, Dot(r, z))
  {
    hide Mul, Add;
    if |r| == 0 {
      MulZeroRight(c);
    } else {
      assert Scaled(r, c)[1..] == Scaled(r[1..], c);
      DotScaled(r[1..], c, z[1..]);
      MulComm(r[0], c);
      MulAssoc(c, r[0], z[0]);
      MulAddRight(c, Mul(r[0], z[0]), Dot(r[1..], z[1..]));
    }
  }

  lemma {:induction false} DotAddScaled(r: Vec, f: Elem, p: Vec, z: Vec)
    requires |r| == |p| == |z|
    ensures Dot(AddScaled(r, f, p), z) == Add(Dot(r, z), Mul(f, Dot(p, z)))
  {
    hide Mul, Add;
    if |r| == 0 {
      MulZeroRight(f);
      AddZero(0);
    } else {
      assert AddScaled(r, f, p)[1..] == AddScaled(r[1..], f, p[1..]);
      DotAddScaled(r[1..], f, p[1..], z[1..]);
      MulAddLeft(r[0], Mul(f, p[0]), z[0]);
      MulAssoc(f, p[0], z[0]);
      MulAddRight(f, Mul(p[0], z[0]), Dot(p[1..], z[1..]));
      AddSwap(Mul(r[0], z[0]), Mul(f, Mul(p[0], z[0])), Dot(r[1..], z[1..]), Mul(f, Dot(p[1..], z[1..])));
    }
  }

  lemma {:induction false} DotConcat(r: Vec, r': Vec, z: Vec, z': Vec)
    requires |r| == |z| && |r'| == |z'|
    ensures Dot(r + r', z + z') == Add(Dot(r, z), Dot(r', z'))
  {
    hide Mul, Add;
    if |r| == 0 {
      assert r + r' == r' && z + z' == z';
      AddZero(Dot(r', z'));
    } else {
      assert (r + r')[1..] == r[1..] + r' && (z + z')[1..] == z[1..] + z';
      DotConcat(r[1..], r', z[1..], z');
      AddAssoc(Mul(r[0], z[0]), Dot(r[1..], z[1..]), Dot(r', z'));
    }
  }

  lemma {:induction false} DotZeroLeft(r: Vec, z: Vec)
    requires |r| == |z| && forall i :: 0 <= i < |r| ==> r[i] == 0
    ensures Dot(r, z) == 0
  {
    hide Mul, Add;
    if |r| != 0 {
      DotZeroLeft(r[1..], z[1..]);
      MulZeroLeft(z[0]);
      AddZero(0);
    }
  }

  lemma {:induction false} DotZeroRight(r: Vec, z: Vec)
    requires |r| == |z| && forall i :: 0 <= i < |r| ==> z[i] == 0
    ensures Dot(r, z) == 0
  {
    hide Mul, Add;
    if |r| != 0 {
      DotZeroRight(r[1..], z[1..]);
      MulZeroRight(r[0]);
      AddZero(0);
    }
  }

  // A row with a single one picks out a component.
  lemma {:induction false} DotUnit(r: Vec, z: Vec, k: nat)
    requires |r| == |z| && k < |r|
    requires forall i :: 0 <= i < |r| ==> r[i] == if i == k then 1 else 0
    ensures Dot(r, z) == z[k]
  {
    hide Mul, Add;
    if k == 0 {
      DotZeroLeft(r[1..], z[1..]);
      MulOneLeft(z[0]);
      AddZero(z[0]);
    } else {
      DotUnit(r[1..], z[1..], k - 1);
      MulZeroLeft(z[0]);
      AddZero(z[k]);
    }
  }

  // ---------- what elimination keeps ----------

  predicate InKernel(m: Mat, z: Vec)
    requires Shaped(m, |m|, |z|)
  {
    forall r :: 0 <= r < |m| ==> Dot(m[r], z) == 0
  }

  // The two matrices have the same solutions.
  ghost predicate SameKernel(m: Mat, m': Mat, width: nat)
    requires Shaped(m, |m|, width) && Shaped(m', |m'|, width)
  {
    forall z: Vec :: |z| == width ==> (InKernel(m, z) <==> InKernel(m', z))
  }

  lemma SwapKernel(m: Mat, i: nat, j: nat, width: nat)
    requires Shaped(m, |m|, width) && i < |m| && j < |m|
    ensures Shaped(m[i := m[j]][j := m[i]], |m|, width)
    ensures SameKernel(m, m[i := m[j]][j := m[i]], width)
  {
    hide Dot;
    var s := m[i := m[j]][j := m[i]];
    forall z: Vec | |z| == width ensures InKernel(m, z) <==> InKernel(s, z) {
      assert m[i] == s[j] && m[j] == s[i];
      assert forall r :: 0 <= r < |m| && r != i && r != j ==> m[r] == s[r];
      if InKernel(s, z) {
        assert Dot(s[j], z) == 0 && Dot(s[i], z) == 0;
      }
    }
  }

  lemma ScaleKernel(m: Mat, i: nat, c: Elem, width: nat)
    requires Shaped(m, |m|, width) && i < |m| && c != 0
    ensures SameKernel(m, m[i := Scaled(m[i], c)], width)
  {
    hide Dot, Mul, Scaled;
    var s := m[i := Scaled(m[i], c)];
    forall z: Vec | |z| == width ensures InKernel(m, z) <==> InKernel(s, z) {
      DotScaled(m[i], c, z);
      MulZeroRight(c);
      assert forall r :: 0 <= r < |m| && r != i ==> m[r] == s[r];
      if InKernel(s, z) {
        assert Dot(s[i], z) == 0;
        NoZeroDivisors(c, Dot(m[i], z));
      }
    }
  }

  lemma EliminateKernel(m: Mat, i: nat, p: nat, f: Elem, width: nat)
    requires Shaped(m, |m|, width) && i < |m| && p < |m| && i != p
    ensures SameKernel(m, m[i := AddScaled(m[i], f, m[p])], width)
  {
    hide Dot, Mul, Add, AddScaled;
    var s := m[i := AddScaled(m[i], f, m[p])];
    forall z: Vec | |z| == width ensures InKernel(m, z) <==> InKernel(s, z) {
      DotAddScaled(m[i], f, m[p], z);
      MulZeroRight(f);
      AddZero(Dot(m[i], z));
      assert forall r :: 0 <= r < |m| && r != i ==> m[r] == s[r];
      if InKernel(s, z) {
        assert Dot(s[i], z) == 0 && Dot(s[p], z) == 0;
      }
    }
  }

  // The first `cols` columns are those of the identity.
  predicate UnitColumns(m: Mat, cols: nat, width: nat)
    requires Shaped(m, |m|, width) && cols <= width
  {
    forall r, c :: 0 <= r < |m| && 0 <= c < cols ==> m[r][c] == if r == c then 1 else 0
  }

  // ---------- Gauss-Jordan inversion ----------

  method ScaleRow(t: Tables, row: Vec, c: Elem) returns (out: Vec)
    requires TablesOk(t)
    ensures out == Scaled(row, c)
  {
    hide Mul;
    out := [];
    for i := 0 to |row|
      invariant |out| == i
      invariant forall k :: 0 <= k < i ==> out[k] == Mul(row[k], c)
    {
      out := out + [MulWith(t, row[i], c)];
    }
  }

  method AddScaledRow(t: Tables, row: Vec, factor: Elem, pivotRow: Vec) returns (out: Vec)
    requires TablesOk(t) && |row| == |pivotRow|
    ensures out == AddScaled(row, factor, pivotRow)
  {
    hide Mul, Add;
    out := [];
    for i := 0 to |row|
      invariant |out| == i
      invariant forall k :: 0 <= k < i ==> out[k] == Add(row[k], Mul(factor, pivotRow[k]))
    {
      out := out + [Add(row[i], MulWith(t, factor, pivotRow[i]))];
    }
  }

  function Augmented(a: Mat): (m: Mat)
    ensures Square(a) ==> Shaped(m, |a|, 2 * |a|)
  {
    seq(|a|, i requires 0 <= i < |a| => a[i] + IdentityRow(|a|, i))
  }

  method Augment(a: Mat) returns (r: Result<Mat>)
    ensures !Square(a) ==> r == Err(FecSingularMatrix)
    ensures Square(a) ==> r == Ok(Augmented(a))
  {
    var m: Mat := [];
    for i := 0 to |a|
      invariant |m| == i
      invariant forall k :: 0 <= k < i ==> |a[k]| == |a| && m[k] == a[k] + IdentityRow(|a|, k)
    {
      if |a[i]| != |a| {
        return Err(FecSingularMatrix);
      }
      m := m + [a[i] + IdentityRow(|a|, i)];
    }
    assert m == Augmented(a);
    return Ok(m);
  }

  // Row `col` has its pivot; clear column `col` of every other row.
  method EliminateColumn(t: Tables, m0: Mat, col: nat, width: nat) returns (m: Mat)
    requires TablesOk(t) && Shaped(m0, |m0|, width) && col < |m0| && col < width
    requires UnitColumns(m0, col, width) && m0[col][col] == 1
    ensures Shaped(m, |m0|, width) && UnitColumns(m, col + 1, width) && SameKernel(m0, m, width)
  {
    hide Mul, Add, InKernel, AddScaled;
    m := m0;
    var pivotRow := m[col];
    for r := 0 to |m|
      invariant Shaped(m, |m0|, width) && m[col] == pivotRow
      invariant UnitColumns(m, col, width)
      invariant forall k :: 0 <= k < r && k != col ==> m[k][col] == 0
      invariant SameKernel(m0, m, width)
    {
      if r != col {
        var factor := m[r][col];
        if factor != 0 {
          EliminateKernel(m, r, col, factor, width);
          EliminateEntries(m[r], factor, pivotRow, col);
          var row := AddScaledRow(t, m[r], factor, pivotRow);
          m := m[r := row];
        }
      }
    }
  }

  lemma EliminateEntries(row: Vec, factor: Elem, pivotRow: Vec, col: nat)
    requires |row| == |pivotRow| && col < |row| && factor == row[col] && pivotRow[col] == 1
    requires forall c :: 0 <= c < col ==> pivotRow[c] == 0
    ensures AddScaled(row, factor, pivotRow)[col] == 0
    ensures forall c :: 0 <= c < col ==> AddScaled(row, factor, pivotRow)[c] == row[c]
  {
    hide Mul, Add;
    MulOneRight(factor);
    AddSelf(factor);
    MulZeroRight(factor);
    forall c | 0 <= c < col ensures AddScaled(row, factor, pivotRow)[c] == row[c] {
      AddZero(row[c]);
    }
  }

  // Bring a non-zero entry to row `col` and scale it to one.
  method NormalizePivot(t: Tables, m0: Mat, col: nat, pivot: nat, width: nat) returns (m: Mat)
    requires TablesOk(t) && Shaped(m0, |m0|, width) && col < width
    requires col <= pivot < |m0| && m0[pivot][col] != 0 && UnitColumns(m0, col, width)
    ensures Shaped(m, |m0|, width) && m[col][col] == 1
    ensures UnitColumns(m, col, width) && SameKernel(m0, m, width)
  {
    hide Mul, Add, InKernel, Scaled;
    m := m0;
    if pivot != col {
      SwapKernel(m, pivot, col, width);
      m := m[pivot := m[col]][col := m[pivot]];
    }
    var inv := InverseWith(t, m[col][col]);
    InverseLaw(m[col][col]);
    ScaleEntries(m[col], inv.value, col);
    ScaleKernel(m, col, inv.value, width);
    var row := ScaleRow(t, m[col], inv.value);
    m := m[col := row];
  }

  lemma ScaleEntries(row: Vec, c: Elem, col: nat)
    requires col < |row| && Mul(row[col], c) == 1 && forall k :: 0 <= k < col ==> row[k] == 0
    ensures Scaled(row, c)[col] == 1 && forall k :: 0 <= k < col ==> Scaled(row, c)[k] == 0
  {
    hide Mul;
    MulZeroLeft(c);
  }

  method FindPivot(m: Mat, col: nat, width: nat) returns (pivot: Option<nat>)
    requires Shaped(m, |m|, width) && col <= |m| && col < width
    ensures pivot.Some? ==> col <= pivot.value < |m| && m[pivot.value][col] != 0
    ensures pivot.Some? ==> forall r :: col <= r < pivot.value ==> m[r][col] == 0
    ensures pivot.None? ==> forall r :: col <= r < |m| ==> m[r][col] == 0
  {
    for row := col to |m|
      invariant forall r :: col <= r < row ==> m[r][col] == 0
    {
      if m[row][col] != 0 {
        return Some(row);
      }
    }
    return None;
  }

  // Fails exactly on the matrices that are not square or not invertible.
  method InvertMatrix(a: Mat) returns (r: Result<Mat>)
    ensures !Square(a) ==> r == Err(FecSingularMatrix)
    ensures r.Err? ==> r.error == FecSingularMatrix
    ensures Square(a) ==> (r.Err? <==> Singular(a))
    ensures Square(a) && r.Ok? ==> Shaped(r.value, |a|, |a|) && Inverses(a, r.value)
  {
    hide Mul, Add, InKernel, Singular, Inverses;
    var augmented := Augment(a);
    if augmented.Err? {
      return augmented;
    }
    var n := |a|;
    var m := augmented.value;
    var t := BuildTables();
    for col := 0 to n
      invariant Shaped(m, n, 2 * n) && UnitColumns(m, col, 2 * n)
      invariant SameKernel(Augmented(a), m, 2 * n)
    {
      var pivot := FindPivot(m, col, 2 * n);
      if pivot.None? {
        NoPivot(a, m, col);
        return Err(FecSingularMatrix);
      }
      m := NormalizePivot(t, m, col, pivot.value, 2 * n);
      m := EliminateColumn(t, m, col, 2 * n);
    }
    var b := seq(n, i requires 0 <= i < n => m[i][n..]);
    Reduced(a, m, b);
    return Ok(b);
  }

  // ---------- what the reduced matrix says about the original ----------

  lemma AugmentedKernel(a: Mat, x: Vec, y: Vec)
    requires Square(a) && |x| == |y| == |a|
    ensures InKernel(Augmented(a), x + y) <==> Apply(a, x) == y
  {
    hide Mul, Add, Dot;
    var m := Augmented(a);
    forall r | 0 <= r < |a| ensures Dot(m[r], x + y) == 0 <==> Dot(a[r], x) == y[r] {
      DotConcat(a[r], IdentityRow(|a|, r), x, y);
      DotUnit(IdentityRow(|a|, r), y, r);
      AddCancel(Dot(a[r], x), y[r]);
    }
    if InKernel(m, x + y) {
      forall r | 0 <= r < |a| ensures Apply(a, x)[r] == y[r] {
        assert Dot(m[r], x + y) == 0;
      }
    } else {
      var r :| 0 <= r < |m| && Dot(m[r], x + y) != 0;
      assert Apply(a, x)[r] != y[r];
    }
  }

  lemma ReducedKernel(m: Mat, b: Mat, x: Vec, y: Vec)
    requires Shaped(m, |m|, 2 * |m|) && UnitColumns(m, |m|, 2 * |m|)
    requires Shaped(b, |m|, |m|) && forall i :: 0 <= i < |m| ==> b[i] == m[i][|m|..]
    requires |x| == |y| == |m|
    ensures InKernel(m, x + y) <==> Apply(b, y) == x
  {
    hide Mul, Add, Dot;
    var n := |m|;
    forall r | 0 <= r < n ensures Dot(m[r], x + y) == 0 <==> Dot(b[r], y) == x[r] {
      assert m[r] == m[r][..n] + b[r];
      DotConcat(m[r][..n], b[r], x, y);
      DotUnit(m[r][..n], x, r);
      AddCancel(x[r], Dot(b[r], y));
    }
    if InKernel(m, x + y) {
      forall r | 0 <= r < n ensures Apply(b, y)[r] == x[r] {
        assert Dot(m[r], x + y) == 0;
      }
    } else {
      var r :| 0 <= r < |m| && Dot(m[r], x + y) != 0;
      assert Apply(b, y)[r] != x[r];
    }
  }

  lemma Reduced(a: Mat, m: Mat, b: Mat)
    requires Square(a) && Shaped(m, |a|, 2 * |a|) && UnitColumns(m, |a|, 2 * |a|)
    requires SameKernel(Augmented(a), m, 2 * |a|)
    requires Shaped(b, |a|, |a|) && forall i :: 0 <= i < |a| ==> b[i] == m[i][|a|..]
    ensures Inverses(a, b) && !Singular(a)
  {
    hide InKernel, Apply, UnitColumns;
    forall x: Vec, y: Vec | |x| == |a| && |y| == |a| ensures Apply(a, x) == y <==> Apply(b, y) == x {
      AugmentedKernel(a, x, y);
      ReducedKernel(m, b, x, y);
      assert |x + y| == 2 * |a|;
    }
    InvertibleIsRegular(a, b);
  }

  lemma InvertibleIsRegular(a: Mat, b: Mat)
    requires Square(a) && Shaped(b, |a|, |a|) && Inverses(a, b)
    ensures !Singular(a)
  {
    hide Dot;
    var zero := Zeros(|a|);
    ApplyZero(b);
    if x: Vec :| |x| == |a| && x != zero && Apply(a, x) == zero {
      assert Apply(b, zero) == x;
    }
  }

  lemma ApplyZero(b: Mat)
    requires Square(b)
    ensures Apply(b, Zeros(|b|)) == Zeros(|b|)
  {
    hide Dot;
    forall i | 0 <= i < |b| ensures Dot(b[i], Zeros(|b|)) == 0 {
      DotZeroRight(b[i], Zeros(|b|));
    }
  }

  // A column without a pivot is a combination of the ones before it.
  function Dependency(m: Mat, col: nat): (x: Vec)
    requires Shaped(m, |m|, 2 * |m|) && col < |m|
    ensures |x| == |m|
  {
    seq(|m|, i requires 0 <= i < |m| => if i < col then m[i][col] else if i == col then 1 else 0)
  }

  lemma DependencyRow(m: Mat, col: nat, r: nat)
    requires Shaped(m, |m|, 2 * |m|) && col < |m| && r < |m|
    requires UnitColumns(m, col, 2 * |m|) && forall r :: col <= r < |m| ==> m[r][col] == 0
    ensures Dot(m[r], Dependency(m, col) + Zeros(|m|)) == 0
  {
    hide Mul, Add, Dot;
    var n := |m|;
    var x := Dependency(m, col);
    var z := x + Zeros(n);
    var (row, low, high) := (m[r], m[r][..col], m[r][col + 1..]);
    assert row == low + ([row[col]] + high);
    assert z == z[..col] + ([z[col]] + z[col + 1..]);
    DotConcat(low, [row[col]] + high, z[..col], [z[col]] + z[col + 1..]);
    DotConcat([row[col]], high, [z[col]], z[col + 1..]);
    DotZeroRight(high, z[col + 1..]);
    DotSingle(row[col], 1);
    MulOneRight(row[col]);
    AddZero(row[col]);
    AddZero(0);
    if r < col {
      DotUnit(low, z[..col], r);
      AddSelf(row[col]);
    } else {
      DotZeroLeft(low, z[..col]);
    }
  }

  lemma DotSingle(a: Elem, b: Elem)
    ensures Dot([a], [b]) == Mul(a, b)
  {
    hide Mul;
    AddZero(Mul(a, b));
  }

  lemma NoPivot(a: Mat, m: Mat, col: nat)
    requires Square(a) && Shaped(m, |a|, 2 * |a|) && col < |a|
    requires UnitColumns(m, col, 2 * |a|) && forall r :: col <= r < |m| ==> m[r][col] == 0
    requires SameKernel(Augmented(a), m, 2 * |a|)
    ensures Singular(a)
  {
    hide Mul, Add, Dot;
    var x := Dependency(m, col);
    var z := x + Zeros(|a|);
    forall r | 0 <= r < |m| ensures Dot(m[r], z) == 0 {
      DependencyRow(m, col, r);
    }
    assert InKernel(m, z);
    assert |z| == 2 * |a|;
    AugmentedKernel(a, x, Zeros(|a|));
    assert x[col] == 1 && Zeros(|a|)[col] == 0;
  }

  // ---------- inverses as matrix products ----------

  function Column(m: Mat, width: nat, j: nat): (c: Vec)
    requires Shaped(m, |m|, width) && j < width
    ensures |c| == |m|
  {
    seq(|m|, i requires 0 <= i < |m| => m[i][j])
  }

  function Product(a: Mat, b: Mat): Mat
    requires Square(a) && Shaped(b, |a|, |a|)
  {
    seq(|a|, i requires 0 <= i < |a| =>
      seq(|a|, j requires 0 <= j < |a| => Dot(a[i], Column(b, |a|, j))))
  }

  function Identity(n: nat): Mat {
    seq(n, i requires 0 <= i < n => IdentityRow(n, i))
  }

  lemma {:induction false} DotUnitRight(r: Vec, n: nat, j: nat)
    requires |r| == n && j < n
    ensures Dot(r, IdentityRow(n, j)) == r[j]
  {
    DotComm(r, IdentityRow(n, j));
    DotUnit(IdentityRow(n, j), r, j);
  }

  lemma {:induction false} DotComm(r: Vec, z: Vec)
    requires |r| == |z|
    ensures Dot(r, z) == Dot(z, r)
  {
    hide Mul, Add;
    if |r| != 0 {
      DotComm(r[1..], z[1..]);
      MulComm(r[0], z[0]);
    }
  }

  lemma InverseProduct(a: Mat, b: Mat)
    requires Square(a) && Shaped(b, |a|, |a|) && Inverses(a, b)
    ensures Product(a, b) == Identity(|a|)
  {
    hide Dot, Inverses;
    var n := |a|;
    forall i, j | 0 <= i < n && 0 <= j < n ensures Dot(a[i], Column(b, n, j)) == IdentityRow(n, j)[i] {
      var e := IdentityRow(n, j);
      forall k | 0 <= k < n ensures Dot(b[k], e) == b[k][j] {
        DotUnitRight(b[k], n, j);
      }
      assert Apply(b, e) == Column(b, n, j);
      InversesAt(a, b, Apply(b, e), e);
      assert Apply(a, Column(b, n, j))[i] == e[i];
    }
    forall i | 0 <= i < n ensures Product(a, b)[i] == Identity(n)[i] {
      assert forall j :: 0 <= j < n ==> IdentityRow(n, j)[i] == IdentityRow(n, i)[j];
    }
  }

  lemma InversesAt(a: Mat, b: Mat, x: Vec, y: Vec)
    requires Square(a) && Shaped(b, |a|, |a|) && Inverses(a, b) && |x| == |y| == |a|
    ensures Apply(a, x) == y <==> Apply(b, y) == x
  {
    hide Apply;
  }

  lemma InversesSymmetric(a: Mat, b: Mat)
    requires Square(a) && Shaped(b, |a|, |a|) && Inverses(a, b)
    ensures Inverses(b, a)
  {
    hide Apply;
  }

  // A left inverse and a right inverse.
  lemma InverseIsTwoSided(a: Mat, b: Mat)
    requires Square(a) && Shaped(b, |a|, |a|) && Inverses(a, b)
    ensures Product(a, b) == Identity(|a|) && Product(b, a) == Identity(|a|)
  {
    hide *;
    InverseProduct(a, b);
    InversesSymmetric(a, b);
    ShapedSame(a, b);
    InverseProduct(b, a);
  }

  lemma ShapedSame(a: Mat, b: Mat)
    requires Square(a) && Shaped(b, |a|, |a|)
    ensures Square(b) && |b| == |a| && Shaped(a, |b|, |b|)
  {
  }
}
