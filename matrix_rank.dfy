/** Rank of a bit matrix over GF(2), computed by in-place Gaussian elimination.
    Each `bv32` is one row of the matrix; bit `b` of a row is its entry in column `b`.
    Column indices are `bv32`, as the loop counter `bit: u32` of the original is.
    The rank is specified on the row span, with each row read as the set of
    columns in which it has a one; XOR of rows is then symmetric difference. */
module MatrixRank {
  import opened Wrappers

  /** The columns `0 .. 31` (`0..u32::BITS`). */
  const AllColumns: set<bv32> :=
    {0, 1, 2, 3, 4, 5, 6, 7, 8, 9, 10, 11, 12, 13, 14, 15,
     16, 17, 18, 19, 20, 21, 22, 23, 24, 25, 26, 27, 28, 29, 30, 31}

  lemma ColumnInAll(b: bv32)
    requires b < 32
    ensures b in AllColumns
  {
  }

  // ---------------------------------------------------------------------------
  // Rows as sets of columns

  /** Entry of `row` in column `b`: the test `(row >> b) & 1 == 1`. */
  predicate Bit(row: bv32, b: bv32)
    requires b < 32
  {
    (row >> b) & 1 == 1
  }

  lemma XorBit(x: bv32, y: bv32, b: bv32)
    requires b < 32
    ensures Bit(x ^ y, b) == (Bit(x, b) != Bit(y, b))
  {
  }

  /** A vector of GF(2)^32, as the set of its nonzero coordinates. */
  type Vector = set<bv32>

  /** Vector addition over GF(2): symmetric difference. */
  function Plus(p: Vector, q: Vector): Vector
  {
    (p - q) + (q - p)
  }

  lemma PlusMember(c: bv32, p: Vector, q: Vector)
    ensures c in Plus(p, q) <==> (c in p) != (c in q)
  {
  }

  /** Adding the same vector twice is adding zero. */
  lemma PlusCancel(p: Vector, q: Vector)
    ensures Plus(Plus(p, q), q) == p
  {
  }

  /** The columns in which `row` has a one. */
  function Cols(row: bv32): (v: Vector)
    ensures forall b :: b in v <==> b in AllColumns && Bit(row, b)
  {
    set b | b in AllColumns && Bit(row, b)
  }

  lemma ColsXorAt(x: bv32, y: bv32, b: bv32)
    ensures b in Cols(x ^ y) <==> b in Plus(Cols(x), Cols(y))
  {
    PlusMember(b, Cols(x), Cols(y));
    if b in AllColumns {
      XorBit(x, y, b);
    }
  }

  /** `^` on rows is addition of their vectors. */
  lemma ColsXor(x: bv32, y: bv32)
    ensures Cols(x ^ y) == Plus(Cols(x), Cols(y))
  {
    forall b ensures b in Cols(x ^ y) <==> b in Plus(Cols(x), Cols(y)) {
      ColsXorAt(x, y, b);
    }
  }

  /** The zero row, and only it, has no columns. */
  lemma ColsEmpty(x: bv32)
    ensures Cols(x) == {} <==> x == 0
  {
    if x == 0 {
      forall b | b in AllColumns ensures !Bit(x, b) {
      }
    } else {
      assert Cols(x) != {} by {
        var b := LowestBit(x);
        assert b in Cols(x);
      }
    }
  }

  /** Some column in which a nonzero row has a one. */
  function LowestBit(x: bv32): (b: bv32)
    requires x != 0
    ensures b in AllColumns && Bit(x, b)
  {
    if Bit(x, 0) then 0 else if Bit(x, 1) then 1 else if Bit(x, 2) then 2 else if Bit(x, 3) then 3
    else if Bit(x, 4) then 4 else if Bit(x, 5) then 5 else if Bit(x, 6) then 6 else if Bit(x, 7) then 7
    else if Bit(x, 8) then 8 else if Bit(x, 9) then 9 else if Bit(x, 10) then 10 else if Bit(x, 11) then 11
    else if Bit(x, 12) then 12 else if Bit(x, 13) then 13 else if Bit(x, 14) then 14 else if Bit(x, 15) then 15
    else if Bit(x, 16) then 16 else if Bit(x, 17) then 17 else if Bit(x, 18) then 18 else if Bit(x, 19) then 19
    else if Bit(x, 20) then 20 else if Bit(x, 21) then 21 else if Bit(x, 22) then 22 else if Bit(x, 23) then 23
    else if Bit(x, 24) then 24 else if Bit(x, 25) then 25 else if Bit(x, 26) then 26 else if Bit(x, 27) then 27
    else if Bit(x, 28) then 28 else if Bit(x, 29) then 29 else if Bit(x, 30) then 30 else 31
  }

  // ---------------------------------------------------------------------------
  // Linear combinations and the span

  /** A vector times a coefficient of GF(2). */
  function Term(v: Vector, pick: bool): Vector
  {
    if pick then v else {}
  }

  /** The GF(2) linear combination of `vs` with coefficients `sel`. */
  function Combination(vs: seq<Vector>, sel: seq<bool>): Vector
    requires |sel| == |vs|
  {
    if vs == [] then {} else Plus(Term(vs[0], sel[0]), Combination(vs[1..], sel[1..]))
  }

  /** Changing one vector and its coefficient adds the old and the new term to
      the combination. */
  lemma {:induction false} CombinationUpdate(vs: seq<Vector>, sel: seq<bool>, k: nat, x: Vector, b: bool)
    requires |sel| == |vs| && k < |vs|
    ensures Combination(vs[k := x], sel[k := b])
         == Plus(Plus(Combination(vs, sel), Term(vs[k], sel[k])), Term(x, b))
  {
    if k == 0 {
      assert vs[k := x][1..] == vs[1..] && sel[k := b][1..] == sel[1..];
    } else {
      assert vs[k := x][1..] == vs[1..][k - 1 := x];
      assert sel[k := b][1..] == sel[1..][k - 1 := b];
      CombinationUpdate(vs[1..], sel[1..], k - 1, x, b);
    }
  }

  /** Two updates whose old and new terms cancel keep the combination. */
  lemma CombinationUpdate2(vs: seq<Vector>, sel: seq<bool>, i: nat, r: nat,
                           xi: Vector, bi: bool, xr: Vector, br: bool)
    requires |sel| == |vs| && i < |vs| && r < |vs| && i != r
    requires Plus(Plus(Term(vs[i], sel[i]), Term(xi, bi)), Plus(Term(vs[r], sel[r]), Term(xr, br))) == {}
    ensures Combination(vs[i := xi][r := xr], sel[i := bi][r := br]) == Combination(vs, sel)
  {
    CombinationUpdate(vs, sel, i, xi, bi);
    CombinationUpdate(vs[i := xi], sel[i := bi], r, xr, br);
  }

  /** A combination picking nothing is zero. */
  lemma {:induction false} CombinationNone(vs: seq<Vector>, sel: seq<bool>)
    requires |sel| == |vs|
    requires forall j :: 0 <= j < |sel| ==> !sel[j]
    ensures Combination(vs, sel) == {}
  {
    if vs != [] {
      CombinationNone(vs[1..], sel[1..]);
    }
  }

  /** The combination picking vector `k` alone is vector `k`. */
  lemma CombinationUnit(vs: seq<Vector>, k: nat)
    requires k < |vs|
    ensures Combination(vs, seq(|vs|, j => j == k)) == vs[k]
  {
    var none := seq(|vs|, j => false);
    CombinationNone(vs, none);
    CombinationUpdate(vs, none, k, vs[k], true);
    assert vs[k := vs[k]] == vs && none[k := true] == seq(|vs|, j => j == k);
  }

  /** No column of `v` is below `b`. */
  ghost predicate NoneBelow(v: Vector, b: bv32)
  {
    forall c :: c in v ==> b <= c
  }

  /** If no picked vector has a column below `b`, neither has the combination. */
  lemma {:induction false} CombinationNoneBelow(vs: seq<Vector>, sel: seq<bool>, b: bv32)
    requires |sel| == |vs|
    requires forall j :: 0 <= j < |vs| && sel[j] ==> NoneBelow(vs[j], b)
    ensures NoneBelow(Combination(vs, sel), b)
  {
    if vs != [] {
      CombinationNoneBelow(vs[1..], sel[1..], b);
    }
  }

  /** If no picked vector has column `c`, neither has the combination. */
  lemma {:induction false} CombinationLacks(vs: seq<Vector>, sel: seq<bool>, c: bv32)
    requires |sel| == |vs|
    requires forall j :: 0 <= j < |vs| && sel[j] ==> c !in vs[j]
    ensures c !in Combination(vs, sel)
  {
    if vs != [] {
      CombinationLacks(vs[1..], sel[1..], c);
    }
  }

  /** If exactly one picked vector has column `c`, so has the combination. */
  lemma {:induction false} CombinationHas(vs: seq<Vector>, sel: seq<bool>, k: nat, c: bv32)
    requires |sel| == |vs| && k < |vs|
    requires sel[k] && c in vs[k]
    requires forall j :: 0 <= j < |vs| && j != k && sel[j] ==> c !in vs[j]
    ensures c in Combination(vs, sel)
  {
    if k == 0 {
      CombinationLacks(vs[1..], sel[1..], c);
    } else {
      CombinationHas(vs[1..], sel[1..], k - 1, c);
    }
  }

  /** `v` is a GF(2) linear combination of `vs`. */
  ghost predicate InSpan(vs: seq<Vector>, v: Vector)
  {
    exists sel: seq<bool> :: |sel| == |vs| && Combination(vs, sel) == v
  }

  ghost predicate SameSpan(a: seq<Vector>, b: seq<Vector>)
  {
    forall v :: InSpan(a, v) <==> InSpan(b, v)
  }

  /** `b` is the lowest column of `v`. */
  ghost predicate LeadsAt(v: Vector, b: bv32)
  {
    b in v && NoneBelow(v, b)
  }

  /** The columns in which some nonzero vector of the span has its lowest one.
      A basis in echelon form has one such column per vector, so their number is
      the dimension of the span. */
  ghost function LeadSet(vs: seq<Vector>): set<bv32>
  {
    set b | b in AllColumns && exists v :: InSpan(vs, v) && LeadsAt(v, b)
  }

  lemma SameSpanLeadSet(a: seq<Vector>, b: seq<Vector>)
    requires SameSpan(a, b)
    ensures LeadSet(a) == LeadSet(b)
  {
  }

  // ---------------------------------------------------------------------------
  // The two row operations keep the span

  function Swap<T>(s: seq<T>, i: nat, j: nat): (r: seq<T>)
    requires i < |s| && j < |s|
    ensures |r| == |s| && r[i] == s[j] && r[j] == s[i]
    ensures forall k :: 0 <= k < |s| && k != i && k != j ==> r[k] == s[k]
  {
    s[i := s[j]][j := s[i]]
  }

  lemma SwapCombination(vs: seq<Vector>, sel: seq<bool>, i: nat, j: nat)
    requires |sel| == |vs| && i < |vs| && j < |vs|
    ensures Combination(Swap(vs, i, j), Swap(sel, i, j)) == Combination(vs, sel)
  {
    if i != j {
      CombinationUpdate2(vs, sel, i, j, vs[j], sel[j], vs[i], sel[i]);
    } else {
      assert Swap(vs, i, j) == vs && Swap(sel, i, j) == sel;
    }
  }

  /** Exchanging two vectors keeps the span. */
  lemma SwapSpan(vs: seq<Vector>, i: nat, j: nat)
    requires i < |vs| && j < |vs|
    ensures SameSpan(Swap(vs, i, j), vs)
  {
    var vs' := Swap(vs, i, j);
    assert Swap(vs', i, j) == vs;
    forall v ensures InSpan(vs', v) <==> InSpan(vs, v) {
      if InSpan(vs, v) {
        var sel :| |sel| == |vs| && Combination(vs, sel) == v;
        SwapCombination(vs, sel, i, j);
        assert Combination(vs', Swap(sel, i, j)) == v;
      }
      if InSpan(vs', v) {
        var sel :| |sel| == |vs'| && Combination(vs', sel) == v;
        SwapCombination(vs', sel, i, j);
        assert Combination(vs, Swap(sel, i, j)) == v;
      }
    }
  }

  lemma AddRowCombination(vs: seq<Vector>, sel: seq<bool>, i: nat, r: nat)
    requires |sel| == |vs| && i < |vs| && r < |vs| && i != r
    ensures Combination(vs[i := Plus(vs[i], vs[r])], sel[r := sel[r] != sel[i]])
         == Combination(vs, sel)
  {
    CombinationUpdate2(vs, sel, i, r, Plus(vs[i], vs[r]), sel[i], vs[r], sel[r] != sel[i]);
    assert vs[i := Plus(vs[i], vs[r])][r := vs[r]] == vs[i := Plus(vs[i], vs[r])];
    assert sel[i := sel[i]][r := sel[r] != sel[i]] == sel[r := sel[r] != sel[i]];
  }

  /** Adding vector `r` into vector `i`, `i != r`, keeps the span. */
  lemma AddRowSpan(vs: seq<Vector>, i: nat, r: nat)
    requires i < |vs| && r < |vs| && i != r
    ensures SameSpan(vs[i := Plus(vs[i], vs[r])], vs)
  {
    var vs' := vs[i := Plus(vs[i], vs[r])];
    PlusCancel(vs[i], vs[r]);
    assert vs'[i := Plus(vs'[i], vs'[r])] == vs;
    forall v ensures InSpan(vs', v) <==> InSpan(vs, v) {
      if InSpan(vs, v) {
        var sel :| |sel| == |vs| && Combination(vs, sel) == v;
        AddRowCombination(vs, sel, i, r);
        assert Combination(vs', sel[r := sel[r] != sel[i]]) == v;
      }
      if InSpan(vs', v) {
        var sel :| |sel| == |vs'| && Combination(vs', sel) == v;
        AddRowCombination(vs', sel, i, r);
        assert Combination(vs, sel[r := sel[r] != sel[i]]) == v;
      }
    }
  }

  // ---------------------------------------------------------------------------
  // Reduced echelon form

  /** Vectors `0 .. |pivots|-1` are pivot vectors: vector `k` has its lowest
      column at `pivots[k]`, the pivot columns increase and stay below `bound`,
      and no other vector has a pivot column. */
  ghost predicate Echelon(vs: seq<Vector>, pivots: seq<bv32>, bound: bv32)
  {
    && |pivots| <= |vs| && bound <= 32
    && (forall k :: 0 <= k < |pivots| ==> pivots[k] < bound)
    && (forall k, l :: 0 <= k < l < |pivots| ==> pivots[k] < pivots[l])
    && (forall k :: 0 <= k < |pivots| ==> LeadsAt(vs[k], pivots[k]))
    && (forall k, j :: 0 <= k < |pivots| && 0 <= j < |vs| && j != k ==> pivots[k] !in vs[j])
  }

  /** Vectors from `from` on have no column below `bound`. */
  ghost predicate ZeroBelow(vs: seq<Vector>, from: nat, bound: bv32)
  {
    forall j :: from <= j < |vs| ==> NoneBelow(vs[j], bound)
  }

  function PivotSet(pivots: seq<bv32>): set<bv32>
  {
    PivotsBelow(pivots, |pivots|)
  }

  /** The first `n` pivot columns. */
  function PivotsBelow(pivots: seq<bv32>, n: nat): set<bv32>
    requires n <= |pivots|
  {
    set k | 0 <= k < n :: pivots[k]
  }

  lemma IncreasingCard(pivots: seq<bv32>)
    requires forall k, l :: 0 <= k < l < |pivots| ==> pivots[k] < pivots[l]
    ensures |PivotSet(pivots)| == |pivots|
  {
    IncreasingPrefixCard(pivots, |pivots|);
  }

  lemma {:induction false} IncreasingPrefixCard(pivots: seq<bv32>, n: nat)
    requires n <= |pivots|
    requires forall k, l :: 0 <= k < l < |pivots| ==> pivots[k] < pivots[l]
    ensures |PivotsBelow(pivots, n)| == n
  {
    if n > 0 {
      IncreasingPrefixCard(pivots, n - 1);
      assert pivots[n - 1] !in PivotsBelow(pivots, n - 1);
      assert PivotsBelow(pivots, n) == PivotsBelow(pivots, n - 1) + {pivots[n - 1]};
    }
  }

  /** The first index below `n` at which `sel` is true, or `n`. */
  function FirstTrue(sel: seq<bool>, n: nat): (k: nat)
    requires n <= |sel|
    ensures k <= n && (k < n ==> sel[k])
    ensures forall j :: 0 <= j < k ==> !sel[j]
  {
    if n == 0 then 0
    else if FirstTrue(sel, n - 1) < n - 1 then FirstTrue(sel, n - 1)
    else if sel[n - 1] then n - 1 else n
  }

  /** In reduced echelon form with zero vectors after the pivot vectors, the
      lowest column of any combination is a pivot column. */
  lemma CombinationLead(vs: seq<Vector>, pivots: seq<bv32>, sel: seq<bool>, b: bv32)
    requires Echelon(vs, pivots, 32)
    requires forall j :: |pivots| <= j < |vs| ==> vs[j] == {}
    requires |sel| == |vs| && LeadsAt(Combination(vs, sel), b)
    ensures b in PivotSet(pivots)
  {
    var r := |pivots|;
    var k0 := FirstTrue(sel, r);
    if k0 == r {
      CombinationLacks(vs, sel, b);
      assert false;
    }
    var p := pivots[k0];
    CombinationHas(vs, sel, k0, p);
    forall j | 0 <= j < |vs| && sel[j] ensures NoneBelow(vs[j], p) {
      if j < r {
        assert p <= pivots[j];
      }
    }
    CombinationNoneBelow(vs, sel, p);
    assert b == p;
  }

  /** In reduced echelon form with zero vectors after the pivot vectors, the lead
      columns of the span are exactly the pivot columns. */
  lemma EchelonLeadSet(vs: seq<Vector>, pivots: seq<bv32>)
    requires Echelon(vs, pivots, 32)
    requires forall j :: |pivots| <= j < |vs| ==> vs[j] == {}
    ensures LeadSet(vs) == PivotSet(pivots)
    ensures |LeadSet(vs)| == |pivots|
  {
    forall k | 0 <= k < |pivots| ensures pivots[k] in LeadSet(vs) {
      CombinationUnit(vs, k);
      assert InSpan(vs, vs[k]);
      ColumnInAll(pivots[k]);
    }
    forall b | b in LeadSet(vs) ensures b in PivotSet(pivots) {
      var v :| InSpan(vs, v) && LeadsAt(v, b);
      var sel :| |sel| == |vs| && Combination(vs, sel) == v;
      CombinationLead(vs, pivots, sel, b);
    }
    IncreasingCard(pivots);
  }

  // ---------------------------------------------------------------------------
  // From rows to vectors

  function Vectors(rows: seq<bv32>): (vs: seq<Vector>)
    ensures |vs| == |rows| && forall j :: 0 <= j < |rows| ==> vs[j] == Cols(rows[j])
  {
    seq(|rows|, j requires 0 <= j < |rows| => Cols(rows[j]))
  }

  /** The columns in which some nonzero combination of `rows` has its lowest one. */
  ghost function LeadColumns(rows: seq<bv32>): set<bv32>
  {
    LeadSet(Vectors(rows))
  }

  /** The rank of `rows`, defined from their span alone: the number of its lead
      columns, which is the dimension of the span. */
  ghost function Rank(rows: seq<bv32>): nat
  {
    |LeadColumns(rows)|
  }

  lemma VectorsSwap(rows: seq<bv32>, i: nat, j: nat)
    requires i < |rows| && j < |rows|
    ensures Vectors(Swap(rows, i, j)) == Swap(Vectors(rows), i, j)
  {
  }

  lemma VectorsUpdate(rows: seq<bv32>, i: nat, x: bv32)
    requires i < |rows|
    ensures Vectors(rows[i := x]) == Vectors(rows)[i := Cols(x)]
  {
  }

  /** `rows[i] ^= rows[r]` keeps the span of the rows. */
  lemma XorRowSpan(rows: seq<bv32>, i: nat, r: nat)
    requires i < |rows| && r < |rows| && i != r
    ensures SameSpan(Vectors(rows[i := rows[i] ^ rows[r]]), Vectors(rows))
  {
    VectorsUpdate(rows, i, rows[i] ^ rows[r]);
    ColsXor(rows[i], rows[r]);
    AddRowSpan(Vectors(rows), i, r);
  }

  lemma BitCols(row: bv32, b: bv32)
    requires b < 32
    ensures Bit(row, b) <==> b in Cols(row)
  {
    ColumnInAll(b);
  }

  // ---------------------------------------------------------------------------
  // The algorithm

  /** The pivot search: the first row at or after `rank` with a one in column `bit`. */
  method FindPivot(matrix: array<bv32>, rank: nat, bit: bv32) returns (pivot: Option<nat>)
    requires rank <= matrix.Length && bit < 32
    ensures pivot.None? <==> forall i :: rank <= i < matrix.Length ==> !Bit(matrix[i], bit)
    ensures pivot.Some? ==> rank <= pivot.value < matrix.Length && Bit(matrix[pivot.value], bit)
    ensures pivot.Some? ==> forall i :: rank <= i < pivot.value ==> !Bit(matrix[i], bit)
  {
    pivot := None;
    for i := rank to matrix.Length
      invariant pivot.None?
      invariant forall j :: rank <= j < i ==> !Bit(matrix[j], bit)
    {
      if Bit(matrix[i], bit) {
        pivot := Some(i);
        break;
      }
    }
  }

  /** Row `j` after column `bit` is eliminated with pivot row `rank`. */
  function EliminatedRow(before: seq<bv32>, rank: nat, bit: bv32, j: nat): bv32
    requires rank < |before| && j < |before| && bit < 32
  {
    if j != rank && Bit(before[j], bit) then before[j] ^ before[rank] else before[j]
  }

  /** The rows after the elimination loop has visited rows `0 .. i-1`. */
  function ElimPrefix(before: seq<bv32>, rank: nat, bit: bv32, i: nat): (rows: seq<bv32>)
    requires rank < |before| && i <= |before| && bit < 32
    ensures |rows| == |before|
  {
    if i == 0 then before
    else
      var prev := ElimPrefix(before, rank, bit, i - 1);
      if i - 1 != rank && Bit(prev[i - 1], bit) then prev[i - 1 := prev[i - 1] ^ prev[rank]] else prev
  }

  /** The visited rows are eliminated, the others unchanged. */
  lemma {:induction false} ElimPrefixRow(before: seq<bv32>, rank: nat, bit: bv32, i: nat, j: nat)
    requires rank < |before| && i <= |before| && bit < 32 && j < |before|
    ensures ElimPrefix(before, rank, bit, i)[j] == (if j < i then EliminatedRow(before, rank, bit, j) else before[j])
  {
    if i > 0 {
      ElimPrefixRow(before, rank, bit, i - 1, j);
      ElimPrefixRow(before, rank, bit, i - 1, i - 1);
      ElimPrefixRow(before, rank, bit, i - 1, rank);
    }
  }

  lemma SameSpanTrans(a: seq<Vector>, b: seq<Vector>, c: seq<Vector>)
    requires SameSpan(a, b) && SameSpan(b, c)
    ensures SameSpan(a, c)
  {
  }

  /** Every step of the elimination loop keeps the span. */
  lemma {:induction false} ElimPrefixSpan(before: seq<bv32>, rank: nat, bit: bv32, i: nat)
    requires rank < |before| && i <= |before| && bit < 32
    ensures SameSpan(Vectors(ElimPrefix(before, rank, bit, i)), Vectors(before))
  {
    if i > 0 {
      var prev := ElimPrefix(before, rank, bit, i - 1);
      ElimPrefixSpan(before, rank, bit, i - 1);
      if i - 1 != rank && Bit(prev[i - 1], bit) {
        XorRowSpan(prev, i - 1, rank);
        SameSpanTrans(Vectors(ElimPrefix(before, rank, bit, i)), Vectors(prev), Vectors(before));
      }
    }
  }

  /** The elimination step: clear column `bit` in every row but the pivot row
      `rank` by XOR-ing the pivot row into it. */
  method Eliminate(matrix: array<bv32>, rank: nat, bit: bv32)
    requires rank < matrix.Length && bit < 32
    modifies matrix
    ensures forall j :: 0 <= j < matrix.Length ==> matrix[j] == EliminatedRow(old(matrix[..]), rank, bit, j)
    ensures SameSpan(Vectors(matrix[..]), Vectors(old(matrix[..])))
  {
    ghost var before := matrix[..];
    for i := 0 to matrix.Length
      invariant matrix[..] == ElimPrefix(before, rank, bit, i)
    {
      if i != rank && Bit(matrix[i], bit) {
        matrix[i] := matrix[i] ^ matrix[rank];
      }
    }
    forall j | 0 <= j < matrix.Length
      ensures matrix[j] == EliminatedRow(before, rank, bit, j)
    {
      ElimPrefixRow(before, rank, bit, matrix.Length, j);
    }
    ElimPrefixSpan(before, rank, bit, matrix.Length);
  }

  // ---------------------------------------------------------------------------
  // The elimination step on vectors

  /** Vector `j` after column `bit` is eliminated with pivot vector `rank`. */
  function EliminatedVector(vs: seq<Vector>, rank: nat, bit: bv32, j: nat): Vector
    requires rank < |vs| && j < |vs|
  {
    if j != rank && bit in vs[j] then Plus(vs[j], vs[rank]) else vs[j]
  }

  lemma EliminatedCols(before: seq<bv32>, rank: nat, bit: bv32, j: nat)
    requires rank < |before| && j < |before| && bit < 32
    ensures Cols(EliminatedRow(before, rank, bit, j)) == EliminatedVector(Vectors(before), rank, bit, j)
  {
    BitCols(before[j], bit);
    ColsXor(before[j], before[rank]);
  }

  /** Eliminating column `bit` with a pivot vector that leads at `bit` extends
      the echelon form by one pivot column. */
  lemma EliminationEchelon(vs: seq<Vector>, ws: seq<Vector>, pivots: seq<bv32>, bit: bv32)
    requires |pivots| < |vs| == |ws| && bit < 32
    requires Echelon(vs, pivots, bit) && ZeroBelow(vs, |pivots|, bit)
    requires bit in vs[|pivots|]
    requires forall j :: 0 <= j < |ws| ==> ws[j] == EliminatedVector(vs, |pivots|, bit, j)
    ensures Echelon(ws, pivots + [bit], bit + 1)
    ensures ZeroBelow(ws, |pivots| + 1, bit + 1)
  {
    var rank := |pivots|;
    var p := vs[rank];
    var pivots' := pivots + [bit];
    forall j | 0 <= j < |ws| ensures forall c :: c in ws[j] ==> c in vs[j] || c in p {
    }
    forall k | 0 <= k < rank ensures LeadsAt(ws[k], pivots[k]) {
      PlusMember(pivots[k], vs[k], p);
    }
    forall k, j | 0 <= k < rank && 0 <= j < |ws| && j != k ensures pivots[k] !in ws[j] {
      PlusMember(pivots[k], vs[j], p);
    }
    forall j | 0 <= j < |ws| && j != rank ensures bit !in ws[j] {
      PlusMember(bit, vs[j], p);
    }
    forall k, j | 0 <= k < |pivots'| && 0 <= j < |ws| && j != k ensures pivots'[k] !in ws[j] {
      if k < rank {
        assert pivots'[k] == pivots[k];
      }
    }
    forall j | rank + 1 <= j < |ws| ensures NoneBelow(ws[j], bit + 1) {
    }
  }

  // ---------------------------------------------------------------------------
  // One round of the outer loop

  /** `matrix.swap(rank, pivot)` with `rank <= pivot` keeps the span and the
      echelon form reached so far, and brings the pivot row up to `rank`. */
  lemma SwapStep(rows: seq<bv32>, pivots: seq<bv32>, bit: bv32, pivot: nat)
    requires bit < 32 && |pivots| <= pivot < |rows|
    requires Echelon(Vectors(rows), pivots, bit) && ZeroBelow(Vectors(rows), |pivots|, bit)
    ensures SameSpan(Vectors(Swap(rows, |pivots|, pivot)), Vectors(rows))
    ensures Echelon(Vectors(Swap(rows, |pivots|, pivot)), pivots, bit)
    ensures ZeroBelow(Vectors(Swap(rows, |pivots|, pivot)), |pivots|, bit)
  {
    VectorsSwap(rows, |pivots|, pivot);
    SwapSpan(Vectors(rows), |pivots|, pivot);
  }

  /** The elimination with a pivot in column `bit` extends the echelon form by
      the pivot column `bit`. */
  lemma EliminateStep(rows: seq<bv32>, after: seq<bv32>, pivots: seq<bv32>, bit: bv32)
    requires bit < 32 && |pivots| < |rows| == |after|
    requires Echelon(Vectors(rows), pivots, bit) && ZeroBelow(Vectors(rows), |pivots|, bit)
    requires Bit(rows[|pivots|], bit)
    requires forall j :: 0 <= j < |after| ==> after[j] == EliminatedRow(rows, |pivots|, bit, j)
    ensures Echelon(Vectors(after), pivots + [bit], bit + 1)
    ensures ZeroBelow(Vectors(after), |pivots| + 1, bit + 1)
  {
    BitCols(rows[|pivots|], bit);
    forall j | 0 <= j < |after|
      ensures Vectors(after)[j] == EliminatedVector(Vectors(rows), |pivots|, bit, j)
    {
      EliminatedCols(rows, |pivots|, bit, j);
    }
    EliminationEchelon(Vectors(rows), Vectors(after), pivots, bit);
  }

  /** Without a pivot in column `bit`, the rows from `rank` on are zero in
      column `bit` too. */
  lemma NoPivotStep(rows: seq<bv32>, rank: nat, bit: bv32)
    requires bit < 32 && ZeroBelow(Vectors(rows), rank, bit)
    requires forall i :: rank <= i < |rows| ==> !Bit(rows[i], bit)
    ensures ZeroBelow(Vectors(rows), rank, bit + 1)
  {
    forall j | rank <= j < |rows| ensures bit !in Vectors(rows)[j] {
      BitCols(rows[j], bit);
    }
  }

  /** After the last column, the rows after the pivot rows are zero and the
      number of pivots is the rank. */
  lemma FinalStep(rows: seq<bv32>, pivots: seq<bv32>)
    requires Echelon(Vectors(rows), pivots, 32) && ZeroBelow(Vectors(rows), |pivots|, 32)
    ensures forall j :: |pivots| <= j < |rows| ==> rows[j] == 0
    ensures LeadColumns(rows) == PivotSet(pivots) && Rank(rows) == |pivots|
  {
    forall j | |pivots| <= j < |rows| ensures Vectors(rows)[j] == {} && rows[j] == 0 {
      assert Cols(rows[j]) == {};
      ColsEmpty(rows[j]);
    }
    EchelonLeadSet(Vectors(rows), pivots);
  }

  /** `matrix.swap(i, j)`. */
  method SwapRows(matrix: array<bv32>, i: nat, j: nat)
    requires i < matrix.Length && j < matrix.Length
    modifies matrix
    ensures matrix[..] == Swap(old(matrix[..]), i, j)
  {
    matrix[i], matrix[j] := matrix[j], matrix[i];
  }

  /** One round of the outer loop of `matrix_rank`, for column `bit`: search a
      pivot row at or after `rank`; if there is one, swap it up to `rank` and
      clear column `bit` in every other row. The result is the pivot row found. */
  method ReduceColumn(matrix: array<bv32>, rank: nat, bit: bv32, ghost pivots: seq<bv32>)
    returns (pivot: Option<nat>)
    requires bit < 32 && rank == |pivots|
    requires Echelon(Vectors(matrix[..]), pivots, bit) && ZeroBelow(Vectors(matrix[..]), rank, bit)
    modifies matrix
    ensures pivot.Some? <==> exists i :: rank <= i < matrix.Length && Bit(old(matrix[i]), bit)
    ensures pivot.None? ==> matrix[..] == old(matrix[..])
    ensures pivot.Some? ==> rank <= pivot.value < matrix.Length && Bit(old(matrix[pivot.value]), bit)
    ensures pivot.Some? ==> forall i :: rank <= i < pivot.value ==> !Bit(old(matrix[i]), bit)
    ensures pivot.Some? ==> forall j :: 0 <= j < matrix.Length ==>
      matrix[j] == EliminatedRow(Swap(old(matrix[..]), rank, pivot.value), rank, bit, j)
    ensures pivot.Some? ==> Echelon(Vectors(matrix[..]), pivots + [bit], bit + 1)
    ensures pivot.Some? ==> ZeroBelow(Vectors(matrix[..]), rank + 1, bit + 1)
    ensures pivot.None? ==> Echelon(Vectors(matrix[..]), pivots, bit + 1)
    ensures pivot.None? ==> ZeroBelow(Vectors(matrix[..]), rank, bit + 1)
    ensures SameSpan(Vectors(matrix[..]), Vectors(old(matrix[..])))
  {
    pivot := FindPivot(matrix, rank, bit);
    if pivot.Some? {
      ghost var rows := matrix[..];
      SwapStep(rows, pivots, bit, pivot.value);
      SwapRows(matrix, rank, pivot.value);
      ghost var swapped := matrix[..];
      Eliminate(matrix, rank, bit);
      EliminateStep(swapped, matrix[..], pivots, bit);
      SameSpanTrans(Vectors(matrix[..]), Vectors(swapped), Vectors(rows));
    } else {
      NoPivotStep(matrix[..], rank, bit);
    }
  }

  /** `matrix_rank`: reduces `matrix` in place and returns its rank.
      `pivots` are the pivot columns, one per pivot row. */
  method ComputeRank(matrix: array<bv32>) returns (rank: nat, ghost pivots: seq<bv32>)
    modifies matrix
    ensures rank <= 32 && rank <= matrix.Length
    ensures rank == |pivots| && Echelon(Vectors(matrix[..]), pivots, 32)
    ensures forall j :: rank <= j < matrix.Length ==> matrix[j] == 0
    ensures SameSpan(Vectors(matrix[..]), Vectors(old(matrix[..])))
    ensures rank == Rank(old(matrix[..]))
  {
    rank, pivots := 0, [];
    var bit: bv32 := 0;
    while bit < 32
      invariant bit <= 32 && rank <= bit as int
      invariant rank == |pivots| && Echelon(Vectors(matrix[..]), pivots, bit)
      invariant ZeroBelow(Vectors(matrix[..]), rank, bit)
      invariant SameSpan(Vectors(matrix[..]), Vectors(old(matrix[..])))
    {
      ghost var rows := matrix[..];
      var pivot := ReduceColumn(matrix, rank, bit, pivots);
      SameSpanTrans(Vectors(matrix[..]), Vectors(rows), Vectors(old(matrix[..])));
      if pivot.Some? {
        pivots, rank := pivots + [bit], rank + 1;
      }
      bit := bit + 1;
    }
    FinalStep(matrix[..], pivots);
    SameSpanLeadSet(Vectors(matrix[..]), Vectors(old(matrix[..])));
  }

  // ---------------------------------------------------------------------------
  // The rank is a property of the span

  /** `matrix.swap(i, j)` keeps the rank. */
  lemma RankSwap(rows: seq<bv32>, i: nat, j: nat)
    requires i < |rows| && j < |rows|
    ensures Rank(Swap(rows, i, j)) == Rank(rows)
  {
    VectorsSwap(rows, i, j);
    SwapSpan(Vectors(rows), i, j);
    SameSpanLeadSet(Vectors(Swap(rows, i, j)), Vectors(rows));
  }

  /** `matrix[i] ^= matrix[r]` with `i != r` keeps the rank. */
  lemma RankXorRow(rows: seq<bv32>, i: nat, r: nat)
    requires i < |rows| && r < |rows| && i != r
    ensures Rank(rows[i := rows[i] ^ rows[r]]) == Rank(rows)
  {
    XorRowSpan(rows, i, r);
    SameSpanLeadSet(Vectors(rows[i := rows[i] ^ rows[r]]), Vectors(rows));
  }

  // ---------------------------------------------------------------------------
  // The three matrices of the unit test

  lemma ColsNine() ensures Cols(9) == {0, 3} {}
  lemma ColsTen() ensures Cols(10) == {1, 3} {}
  lemma ColsTwelve() ensures Cols(12) == {2, 3} {}

  /** Rows 1100, 1010 and 1001 in binary. */
  lemma RankOfIndependentRows()
    ensures Rank([12, 10, 9]) == 3
  {
    var rows: seq<bv32> := [12, 10, 9];
    var reduced := Swap(rows, 0, 2);
    assert reduced == [9, 10, 12];
    ColsNine();
    ColsTen();
    ColsTwelve();
    assert Vectors(reduced) == [{0, 3}, {1, 3}, {2, 3}];
    UnitEchelon(Vectors(reduced));
    FinalStep(reduced, [0, 1, 2]);
    RankSwap(rows, 0, 2);
  }

  /** The columns of 1001, 1010 and 1100 are in reduced echelon form with pivots 0, 1, 2. */
  lemma UnitEchelon(vs: seq<Vector>)
    requires vs == [{0, 3}, {1, 3}, {2, 3}]
    ensures Echelon(vs, [0, 1, 2], 32)
  {
    assert LeadsAt(vs[0], 0) && LeadsAt(vs[1], 1) && LeadsAt(vs[2], 2);
    assert 0 !in vs[1] && 0 !in vs[2];
    assert 1 !in vs[0] && 1 !in vs[2];
    assert 2 !in vs[0] && 2 !in vs[1];
  }

  /** Three rows 1100 in binary. */
  lemma RankOfEqualRows()
    ensures Rank([12, 12, 12]) == 1
  {
    var rows: seq<bv32> := [12, 12, 12];
    var once := rows[1 := rows[1] ^ rows[0]];
    var reduced := once[2 := once[2] ^ once[0]];
    assert reduced == [12, 0, 0];
    ColsTwelve();
    ColsEmpty(0);
    assert Vectors(reduced) == [{2, 3}, {}, {}];
    FinalStep(reduced, [2]);
    RankXorRow(rows, 1, 0);
    RankXorRow(once, 2, 0);
  }

  lemma RankOfZeroRows()
    ensures Rank([0, 0, 0]) == 0
  {
    ColsEmpty(0);
    assert Vectors([0, 0, 0]) == [{}, {}, {}];
    FinalStep([0, 0, 0], []);
  }
}
