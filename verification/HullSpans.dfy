/**
  Structure hulls as lists of vertical-slab spans.

  A hull is sent as spans (x, y, minZ..maxZ).  The reader only ever compares a
  span with its predecessor; this module lifts those local comparisons to facts
  about the whole list and about the set of cells it denotes.
 */
module HullSpans {
  import opened Wrappers

  datatype Span = Span(x: Int32, y: Int32, minZ: Int32, maxZ: Int32)
  datatype Cell = Cell(x: int, y: int, z: int)

  /** Integer.compare. */
  function CompareInts(a: int, b: int): int {
    if a < b then -1 else if a == b then 0 else 1
  }

  function Compare(left: Span, right: Span): int {
    var x := CompareInts(left.x, right.x);
    if x != 0 then x
    else
      var y := CompareInts(left.y, right.y);
      if y != 0 then y else CompareInts(left.minZ, right.minZ)
  }

  /** Overlapping or adjacent in one column, as compared with the predecessor. */
  predicate Touches(previous: Span, current: Span) {
    previous.x == current.x && previous.y == current.y && previous.maxZ + 1 >= current.minZ
  }

  /** The order the format promises: an earlier column, or lower in the same
      column with at least one free cell between. */
  predicate Before(a: Span, b: Span) {
    || a.x < b.x
    || (a.x == b.x && a.y < b.y)
    || (a.x == b.x && a.y == b.y && a.maxZ + 1 < b.minZ)
  }

  predicate Upright(s: Span) { s.minZ <= s.maxZ }

  /** What the reader checks span by span. */
  predicate Canonical(spans: seq<Span>) {
    && (forall i :: 0 <= i < |spans| ==> Upright(spans[i]))
    && (forall i :: 0 < i < |spans| ==>
          Compare(spans[i - 1], spans[i]) < 0 && !Touches(spans[i - 1], spans[i]))
  }

  predicate Covers(s: Span, c: Cell) {
    s.x == c.x && s.y == c.y && s.minZ <= c.z <= s.maxZ
  }

  function Column(s: Span): set<Cell> {
    set z | s.minZ <= z <= s.maxZ :: Cell(s.x, s.y, z)
  }

  /** The set of cells a span list denotes. */
  function Cells(spans: seq<Span>): set<Cell> {
    if spans == [] then {} else Cells(spans[..|spans| - 1]) + Column(spans[|spans| - 1])
  }

  function Length(s: Span): int { s.maxZ - s.minZ + 1 }

  function CellCount(spans: seq<Span>): int {
    if spans == [] then 0 else CellCount(spans[..|spans| - 1]) + Length(spans[|spans| - 1])
  }

  lemma {:induction false} InCells(spans: seq<Span>, c: Cell)
    ensures c in Cells(spans) <==> exists i :: 0 <= i < |spans| && Covers(spans[i], c)
  {
    if spans != [] {
      var n := |spans| - 1;
      InCells(spans[..n], c);
      if exists i :: 0 <= i < n && Covers(spans[..n][i], c) {
        var i :| 0 <= i < n && Covers(spans[..n][i], c);
        assert Covers(spans[i], c);
      }
      assert c in Column(spans[n]) <==> Covers(spans[n], c);
    }
  }

  /** Neighbour checks imply the order between every pair of positions. */
  lemma {:induction false} Ordered(spans: seq<Span>, i: nat, j: nat)
    requires Canonical(spans) && i < j < |spans|
    ensures Before(spans[i], spans[j])
    decreases j - i
  {
    assert Compare(spans[j - 1], spans[j]) < 0 && !Touches(spans[j - 1], spans[j]);
    if i < j - 1 {
      Ordered(spans, i, j - 1);
      assert Upright(spans[j - 1]);
    }
  }

  /** Before on all pairs is also all that the neighbour checks ask for. */
  lemma CanonicalIffOrdered(spans: seq<Span>)
    ensures Canonical(spans) <==>
              && (forall i :: 0 <= i < |spans| ==> Upright(spans[i]))
              && (forall i, j :: 0 <= i < j < |spans| ==> Before(spans[i], spans[j]))
  {
    if Canonical(spans) {
      forall i, j | 0 <= i < j < |spans| ensures Before(spans[i], spans[j]) {
        Ordered(spans, i, j);
      }
    }
    if && (forall i :: 0 <= i < |spans| ==> Upright(spans[i]))
       && (forall i, j :: 0 <= i < j < |spans| ==> Before(spans[i], spans[j])) {
      forall i | 0 < i < |spans|
        ensures Compare(spans[i - 1], spans[i]) < 0 && !Touches(spans[i - 1], spans[i])
      {
        assert Before(spans[i - 1], spans[i]);
        assert Upright(spans[i - 1]) && Upright(spans[i]);
      }
    }
  }

  /** No cell is covered twice: disjointness of all pairs, not only neighbours. */
  lemma PairwiseDisjoint(spans: seq<Span>)
    requires Canonical(spans)
    ensures forall i, j :: 0 <= i < j < |spans| ==> Column(spans[i]) !! Column(spans[j])
  {
    forall i, j | 0 <= i < j < |spans| ensures Column(spans[i]) !! Column(spans[j]) {
      Ordered(spans, i, j);
      assert Upright(spans[i]) && Upright(spans[j]);
    }
  }

  lemma {:induction false} ColumnSize(s: Span)
    requires Upright(s)
    ensures |Column(s)| == Length(s)
    decreases s.maxZ - s.minZ
  {
    var top := Cell(s.x, s.y, s.maxZ);
    if s.minZ == s.maxZ {
      assert Column(s) == {top};
    } else {
      var rest := s.(maxZ := s.maxZ - 1);
      ColumnSize(rest);
      assert Column(s) == Column(rest) + {top};
    }
  }

  lemma CanonicalPrefix(spans: seq<Span>, n: nat)
    requires Canonical(spans) && n <= |spans|
    ensures Canonical(spans[..n])
  {
  }

  /** The running sum of lengths is the cardinality of the union of the spans. */
  lemma {:induction false} CellCountIsCardinality(spans: seq<Span>)
    requires Canonical(spans)
    ensures CellCount(spans) == |Cells(spans)|
  {
    if spans != [] {
      var n := |spans| - 1;
      CanonicalPrefix(spans, n);
      CellCountIsCardinality(spans[..n]);
      assert Upright(spans[n]);
      ColumnSize(spans[n]);
      PairwiseDisjoint(spans);
      forall c | c in Cells(spans[..n]) ensures c !in Column(spans[n]) {
        InCells(spans[..n], c);
        var i :| 0 <= i < n && Covers(spans[..n][i], c);
        assert c in Column(spans[i]);
      }
      assert Cells(spans[..n]) !! Column(spans[n]);
    }
  }

  /** A list of at most 132,096 spans never overflows a 64-bit sum. */
  lemma {:induction false} CellCountBound(spans: seq<Span>)
    requires forall i :: 0 <= i < |spans| ==> Upright(spans[i])
    ensures |spans| <= CellCount(spans) <= |spans| * 0x1_0000_0000
  {
    if spans != [] {
      var n := |spans| - 1;
      assert forall i :: 0 <= i < n ==> spans[..n][i] == spans[i];
      CellCountBound(spans[..n]);
      assert Upright(spans[n]);
    }
  }

  /** The first cell of the k-th span pins that span down: any canonical list of
      the same cells that agrees so far has the same span there. */
  lemma SameSpanAt(a: seq<Span>, b: seq<Span>, k: nat)
    requires Canonical(a) && Canonical(b) && Cells(a) == Cells(b)
    requires k < |a| && k <= |b| && a[..k] == b[..k]
    ensures k < |b| && a[k].x == b[k].x && a[k].y == b[k].y
    ensures a[k].minZ >= b[k].minZ
    ensures a[k].minZ == b[k].minZ ==> a[k].maxZ <= b[k].maxZ
  {
    var low := Cell(a[k].x, a[k].y, a[k].minZ);
    var j := Locate(a, b, k, low);
    if j > k {
      // b[k] would start below low, at a cell that a puts at k or later.
      Ordered(b, k, j);
      assert Upright(b[k]) && Upright(b[j]);
      var first := Cell(b[k].x, b[k].y, b[k].minZ);
      var i := Locate(b, a, k, first);
      assert Upright(a[k]) && Upright(a[i]);
      if i > k { Ordered(a, k, i); }
      assert false;
    }
    if a[k].minZ == b[k].minZ && a[k].maxZ > b[k].maxZ {
      assert Upright(b[k]);
      var gap := Cell(b[k].x, b[k].y, b[k].maxZ + 1);
      var m := Locate(a, b, k, gap);
      if m > k { Ordered(b, k, m); }
      assert false;
    }
  }

  /** A cell of a[k] lies in b at position k or later. */
  lemma Locate(a: seq<Span>, b: seq<Span>, k: nat, c: Cell) returns (j: nat)
    requires Canonical(a) && Cells(a) == Cells(b)
    requires k < |a| && k <= |b| && a[..k] == b[..k]
    requires Covers(a[k], c)
    ensures k <= j < |b| && Covers(b[j], c)
  {
    InCells(a, c);
    InCells(b, c);
    var i :| 0 <= i < |b| && Covers(b[i], c);
    j := i;
    if j < k {
      assert a[..k][j] == b[..k][j];
      Ordered(a, j, k);
      assert false;
    }
  }

  lemma {:induction false} AgreeUpTo(a: seq<Span>, b: seq<Span>, k: nat)
    requires Canonical(a) && Canonical(b) && Cells(a) == Cells(b)
    requires k <= |a|
    ensures k <= |b| && a[..k] == b[..k]
  {
    if k > 0 {
      AgreeUpTo(a, b, k - 1);
      SameSpanAt(a, b, k - 1);
      SameSpanAt(b, a, k - 1);
      assert a[..k] == a[..k - 1] + [a[k - 1]];
      assert b[..k] == b[..k - 1] + [b[k - 1]];
    }
  }

  /** Canonical form is unique: the same cells have exactly one span list. */
  lemma CanonicalFormIsUnique(a: seq<Span>, b: seq<Span>)
    requires Canonical(a) && Canonical(b)
    ensures a == b <==> Cells(a) == Cells(b)
  {
    if Cells(a) == Cells(b) {
      AgreeUpTo(a, b, |a|);
      AgreeUpTo(b, a, |b|);
    }
  }
}
