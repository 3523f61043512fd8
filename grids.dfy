/** The board as a value: a list of rows of integer colours, the origin's
    region, the flood fill described as a function (Recolor), completion and
    the greedy solver's measure. The in-place algorithms of the Flood class
    are proved against these definitions. */
module Grids {
  import opened Regions

  type Grid = seq<seq<int>>

  /** The fixed cell every move targets. */
  const Origin: Cell := (0, 0)

  predicate InBounds(g: Grid, p: Cell)
  {
    0 <= p.0 < |g| && 0 <= p.1 < |g[p.0]|
  }

  function At(g: Grid, p: Cell): int
    requires InBounds(g, p)
  {
    g[p.0][p.1]
  }

  /** alto rows of ancho cells each. */
  predicate IsRect(g: Grid, alto: int, ancho: int)
  {
    |g| == alto && forall i :: 0 <= i < |g| ==> |g[i]| == ancho
  }

  predicate SameShape(g: Grid, h: Grid)
  {
    |g| == |h| && forall i :: 0 <= i < |g| ==> |g[i]| == |h[i]|
  }

  /** All positions of the board. */
  ghost function Cells(g: Grid): (s: set<Cell>)
    ensures forall q :: q in s <==> InBounds(g, q)
  {
    var s := set i, j | 0 <= i < |g| && 0 <= j < |g[i]| :: (i, j);
    assert forall q :: InBounds(g, q) ==> q in s by {
      forall q | InBounds(g, q) ensures q in s {
        var (i, j) := q;
        assert (i, j) in s;
      }
    }
    s
  }

  /** The positions that hold colour d. */
  ghost function CellsOf(g: Grid, d: int): (s: set<Cell>)
    ensures s <= Cells(g)
    ensures forall q :: q in s <==> InBounds(g, q) && At(g, q) == d
  {
    set q | q in Cells(g) && At(g, q) == d
  }

  /** Write colour c into position p. */
  function Paint(g: Grid, p: Cell, c: int): (h: Grid)
    requires InBounds(g, p)
    ensures SameShape(g, h)
    ensures forall q :: InBounds(g, q) ==> At(h, q) == if q == p then c else At(g, q)
  {
    g[p.0 := g[p.0][p.1 := c]]
  }

  /** Painting a cell of colour d with another colour removes exactly that
      cell from the cells of colour d, and repaints nothing else. */
  lemma PaintRemoves(g: Grid, p: Cell, d: int, c: int)
    requires InBounds(g, p) && At(g, p) == d && c != d
    ensures CellsOf(Paint(g, p, c), d) == CellsOf(g, d) - {p}
    ensures RepaintedFrom(g, Paint(g, p, c), d, c)
  {
    assert CellsOf(Paint(g, p, c), d) == CellsOf(g, d) - {p};
  }

  /** Two boards of the same shape with the same colour everywhere are equal. */
  lemma GridExt(g: Grid, h: Grid)
    requires SameShape(g, h)
    requires forall q :: InBounds(g, q) ==> At(g, q) == At(h, q)
    ensures g == h
  {
    forall i | 0 <= i < |g| ensures g[i] == h[i] {
      forall j | 0 <= j < |g[i]| ensures g[i][j] == h[i][j] {
        assert InBounds(g, (i, j));
      }
    }
  }

  /** h arises from g by turning into c exactly the cells of colour d that h
      no longer has; every other cell keeps its colour. */
  ghost predicate RepaintedFrom(g: Grid, h: Grid, d: int, c: int)
  {
    SameShape(g, h) &&
    forall q :: InBounds(g, q) ==>
      At(h, q) == if q in CellsOf(g, d) - CellsOf(h, d) then c else At(g, q)
  }

  lemma RepaintedRefl(g: Grid, d: int, c: int)
    ensures RepaintedFrom(g, g, d, c)
  {
  }

  lemma RepaintedTrans(g1: Grid, g2: Grid, g3: Grid, d: int, c: int)
    requires c != d
    requires RepaintedFrom(g1, g2, d, c) && RepaintedFrom(g2, g3, d, c)
    ensures RepaintedFrom(g1, g3, d, c)
  {
    forall q | InBounds(g1, q)
      ensures At(g3, q) == if q in CellsOf(g1, d) - CellsOf(g3, d) then c else At(g1, q)
    {
      assert InBounds(g2, q) && InBounds(g3, q);
    }
  }

  /** The first n rows of g with every cell of C painted c. */
  ghost function PaintRows(g: Grid, C: set<Cell>, c: int, n: nat): (h: Grid)
    requires n <= |g|
    ensures |h| == n && forall i :: 0 <= i < n ==> |h[i]| == |g[i]|
  {
    if n == 0 then []
    else
      var row := g[n - 1];
      PaintRows(g, C, c, n - 1) +
      [seq(|row|, j requires 0 <= j < |row| => if (n - 1, j) in C then c else row[j])]
  }

  lemma {:induction false} PaintRowsAt(g: Grid, C: set<Cell>, c: int, n: nat)
    requires n <= |g|
    ensures forall i, j :: 0 <= i < n && 0 <= j < |g[i]| ==>
      PaintRows(g, C, c, n)[i][j] == if (i, j) in C then c else g[i][j]
  {
    if n > 0 {
      PaintRowsAt(g, C, c, n - 1);
    }
  }

  /** g with every cell of C painted c. */
  ghost function PaintAll(g: Grid, C: set<Cell>, c: int): (h: Grid)
    ensures SameShape(g, h)
  {
    PaintRows(g, C, c, |g|)
  }

  lemma PaintAllAt(g: Grid, C: set<Cell>, c: int)
    ensures forall q :: InBounds(g, q) ==>
      At(PaintAll(g, C, c), q) == if q in C then c else At(g, q)
  {
    PaintRowsAt(g, C, c, |g|);
  }

  /** The flood fill as a value: the component of p among the cells of
      colour d, painted c; every other cell keeps its colour. */
  ghost function Fill(g: Grid, p: Cell, d: int, c: int): (h: Grid)
    ensures SameShape(g, h)
  {
    PaintAll(g, Component(CellsOf(g, d), p), c)
  }

  /** What Fill leaves in each cell. */
  lemma FillAt(g: Grid, p: Cell, d: int, c: int)
    ensures forall q :: InBounds(g, q) ==>
      At(Fill(g, p, d, c), q) == if q in Component(CellsOf(g, d), p) then c else At(g, q)
  {
    PaintAllAt(g, Component(CellsOf(g, d), p), c);
  }

  /** When c differs from d, Fill is characterised by what it leaves of the
      cells of colour d (all but the component) and by repainting exactly the
      removed cells. */
  lemma FillExactly(g: Grid, h: Grid, p: Cell, d: int, c: int)
    requires c != d
    ensures h == Fill(g, p, d, c) <==>
            CellsOf(h, d) == CellsOf(g, d) - Component(CellsOf(g, d), p) &&
            RepaintedFrom(g, h, d, c)
  {
    var E := CellsOf(g, d);
    var C := Component(E, p);
    FillAt(g, p, d, c);
    if h == Fill(g, p, d, c) {
      assert CellsOf(h, d) == E - C;
    }
    if CellsOf(h, d) == E - C && RepaintedFrom(g, h, d, c) {
      assert E - CellsOf(h, d) == C;
      GridExt(h, Fill(g, p, d, c));
    }
  }

  /** A fill from a cell that does not hold d changes nothing. */
  lemma FillIneligible(g: Grid, p: Cell, d: int, c: int)
    requires !InBounds(g, p) || At(g, p) != d
    ensures Fill(g, p, d, c) == g
  {
    ComponentOfIneligible(CellsOf(g, d), p);
    FillAt(g, p, d, c);
    GridExt(Fill(g, p, d, c), g);
  }

  /** The same step on the CellsOf / RepaintedFrom description of the
      boards. */
  lemma FillChain(g0: Grid, fil: int, col: int, d: int, c: int, g2: Grid, g3: Grid, g4: Grid, g5: Grid)
    requires InBounds(g0, (fil, col)) && At(g0, (fil, col)) == d && c != d
    requires var g1 := Paint(g0, (fil, col), c);
             CellsOf(g2, d) == CellsOf(g1, d) - Component(CellsOf(g1, d), (fil + 1, col)) &&
             RepaintedFrom(g1, g2, d, c)
    requires CellsOf(g3, d) == CellsOf(g2, d) - Component(CellsOf(g2, d), (fil - 1, col)) &&
             RepaintedFrom(g2, g3, d, c)
    requires CellsOf(g4, d) == CellsOf(g3, d) - Component(CellsOf(g3, d), (fil, col + 1)) &&
             RepaintedFrom(g3, g4, d, c)
    requires CellsOf(g5, d) == CellsOf(g4, d) - Component(CellsOf(g4, d), (fil, col - 1)) &&
             RepaintedFrom(g4, g5, d, c)
    ensures CellsOf(g5, d) == CellsOf(g0, d) - Component(CellsOf(g0, d), (fil, col))
    ensures RepaintedFrom(g0, g5, d, c)
  {
    var g1 := Paint(g0, (fil, col), c);
    PaintRemoves(g0, (fil, col), d, c);
    SweepCompose(CellsOf(g0, d), (fil, col), (fil + 1, col), (fil - 1, col), (fil, col + 1), (fil, col - 1),
                 CellsOf(g2, d), CellsOf(g3, d), CellsOf(g4, d), CellsOf(g5, d));
    RepaintedTrans(g0, g1, g2, d, c);
    RepaintedTrans(g0, g2, g3, d, c);
    RepaintedTrans(g0, g3, g4, d, c);
    RepaintedTrans(g0, g4, g5, d, c);
  }

  /** One step of the depth-first fill from (fil, col): paint it with c,
      then fill from its four neighbours (down, up, right, left), each on the
      board the previous one left. Altogether this is the fill from
      (fil, col). */
  lemma FillStep(g0: Grid, fil: int, col: int, d: int, c: int, g2: Grid, g3: Grid, g4: Grid, g5: Grid)
    requires InBounds(g0, (fil, col)) && At(g0, (fil, col)) == d && c != d
    requires g2 == Fill(Paint(g0, (fil, col), c), (fil + 1, col), d, c)
    requires g3 == Fill(g2, (fil - 1, col), d, c)
    requires g4 == Fill(g3, (fil, col + 1), d, c)
    requires g5 == Fill(g4, (fil, col - 1), d, c)
    ensures g5 == Fill(g0, (fil, col), d, c)
  {
    var g1 := Paint(g0, (fil, col), c);
    FillExactly(g1, g2, (fil + 1, col), d, c);
    FillExactly(g2, g3, (fil - 1, col), d, c);
    FillExactly(g3, g4, (fil, col + 1), d, c);
    FillExactly(g4, g5, (fil, col - 1), d, c);
    FillChain(g0, fil, col, d, c, g2, g3, g4, g5);
    FillExactly(g0, g5, (fil, col), d, c);
  }

  /** The origin's region: the cells 4-connected to (0, 0) through cells of
      the origin's current colour. */
  ghost function Region(g: Grid): (R: set<Cell>)
    requires InBounds(g, Origin)
    ensures R <= CellsOf(g, At(g, Origin))
  {
    Component(CellsOf(g, At(g, Origin)), Origin)
  }

  lemma OriginInRegion(g: Grid)
    requires InBounds(g, Origin)
    ensures Origin in Region(g)
  {
    ReachesSelf(CellsOf(g, At(g, Origin)), Origin);
  }

  /** The board after one move of colour c: the origin's region repainted. */
  ghost function Recolor(g: Grid, c: int): (h: Grid)
    requires InBounds(g, Origin)
    ensures SameShape(g, h)
  {
    Fill(g, Origin, At(g, Origin), c)
  }

  /** What a move does cell by cell: the region takes colour c and every
      other cell keeps its colour. */
  lemma RecolorAt(g: Grid, c: int)
    requires InBounds(g, Origin)
    ensures forall q :: InBounds(g, q) ==> At(Recolor(g, c), q) == if q in Region(g) then c else At(g, q)
  {
    FillAt(g, Origin, At(g, Origin), c);
  }

  /** The moves of a solution applied one after another. */
  ghost function ApplyMoves(g: Grid, moves: seq<int>): (h: Grid)
    requires InBounds(g, Origin)
    ensures SameShape(g, h)
    decreases |moves|
  {
    if moves == [] then g
    else
      var prev := ApplyMoves(g, moves[..|moves| - 1]);
      assert InBounds(prev, Origin);
      Recolor(prev, moves[|moves| - 1])
  }

  /** Every cell holds the origin's colour. */
  ghost predicate Complete(g: Grid)
    requires InBounds(g, Origin)
  {
    forall i, j :: 0 <= i < |g| && 0 <= j < |g[i]| ==> g[i][j] == g[0][0]
  }

  /** The region size the greedy solver measures after trying colour c. */
  ghost function AreaAfter(g: Grid, c: int): nat
    requires InBounds(g, Origin)
  {
    |Region(Recolor(g, c))|
  }

  /** Every cell outside the origin's region still holds one of the colours
      used when the board was seeded. */
  ghost predicate Seeded(g: Grid, colores: set<int>)
    requires InBounds(g, Origin)
  {
    forall q :: InBounds(g, q) && q !in Region(g) ==> At(g, q) in colores
  }

  // ---------------------------------------------------------------------
  // Properties of one move
  // ---------------------------------------------------------------------

  /** After a move the origin holds the chosen colour. */
  lemma RecolorOrigin(g: Grid, c: int)
    requires InBounds(g, Origin)
    ensures At(Recolor(g, c), Origin) == c
  {
    RecolorAt(g, c);
    OriginInRegion(g);
  }

  /** Choosing the origin's own colour changes nothing. */
  lemma RecolorSameColour(g: Grid, c: int)
    requires InBounds(g, Origin) && c == At(g, Origin)
    ensures Recolor(g, c) == g
  {
    RecolorAt(g, c);
    GridExt(Recolor(g, c), g);
  }

  /** Repeating a move is a no-op. */
  lemma RecolorIdempotent(g: Grid, c: int)
    requires InBounds(g, Origin)
    ensures Recolor(Recolor(g, c), c) == Recolor(g, c)
  {
    RecolorOrigin(g, c);
    RecolorSameColour(Recolor(g, c), c);
  }

  /** A move never shrinks the origin's region. */
  lemma RegionGrows(g: Grid, c: int)
    requires InBounds(g, Origin)
    ensures Region(g) <= Region(Recolor(g, c))
  {
    var h := Recolor(g, c);
    RecolorAt(g, c);
    RecolorOrigin(g, c);
    assert Region(g) <= CellsOf(h, c);
    ComponentInto(CellsOf(g, At(g, Origin)), CellsOf(h, c), Origin);
  }

  /** A move of colour c absorbs every cell of colour c next to the region. */
  lemma RegionAbsorbs(g: Grid, c: int, q: Cell, r: Cell)
    requires InBounds(g, Origin)
    requires q in Region(g) && Adjacent(q, r) && InBounds(g, r) && At(g, r) == c
    ensures r in Region(Recolor(g, c))
  {
    var h := Recolor(g, c);
    RecolorAt(g, c);
    RegionGrows(g, c);
    RecolorOrigin(g, c);
    assert At(h, r) == c;
    ReachesExtend(CellsOf(h, c), Origin, q, r);
  }

  /** Moves keep the cells outside the region untouched, so a seeded board
      stays seeded. */
  lemma SeededRecolor(g: Grid, colores: set<int>, c: int)
    requires InBounds(g, Origin) && Seeded(g, colores)
    ensures Seeded(Recolor(g, c), colores)
  {
    RecolorAt(g, c);
    RegionGrows(g, c);
  }

  // ---------------------------------------------------------------------
  // Completion and the frontier of the region
  // ---------------------------------------------------------------------

  /** A region closed under adjacency on a rectangular board covers it. */
  lemma {:induction false} ClosedRegionCovers(g: Grid, alto: int, ancho: int, i: int, j: int)
    requires IsRect(g, alto, ancho) && alto > 0 && ancho > 0
    requires forall q, r :: q in Region(g) && Adjacent(q, r) && InBounds(g, r) ==> r in Region(g)
    requires 0 <= i < alto && 0 <= j < ancho
    ensures (i, j) in Region(g)
    decreases i, j
  {
    if j > 0 {
      ClosedRegionCovers(g, alto, ancho, i, j - 1);
      assert Adjacent((i, j - 1), (i, j));
    } else if i > 0 {
      ClosedRegionCovers(g, alto, ancho, i - 1, 0);
      assert Adjacent((i - 1, 0), (i, 0));
    } else {
      OriginInRegion(g);
    }
  }

  /** The board is complete exactly when the origin's region is the whole
      board. */
  lemma CompleteIffRegionIsBoard(g: Grid, alto: int, ancho: int)
    requires IsRect(g, alto, ancho) && alto > 0 && ancho > 0
    ensures Complete(g) <==> Region(g) == Cells(g)
  {
    var d := At(g, Origin);
    if Complete(g) {
      forall q, r | q in Region(g) && Adjacent(q, r) && InBounds(g, r) ensures r in Region(g) {
        assert At(g, r) == d;
        ReachesExtend(CellsOf(g, d), Origin, q, r);
      }
      forall q | InBounds(g, q) ensures q in Region(g) {
        ClosedRegionCovers(g, alto, ancho, q.0, q.1);
      }
    }
    if Region(g) == Cells(g) {
      forall i, j | 0 <= i < |g| && 0 <= j < |g[i]| ensures g[i][j] == g[0][0] {
        assert (i, j) in Region(g);
      }
    }
  }

  /** An incomplete board has a cell outside the region next to it. */
  lemma FrontierExists(g: Grid, alto: int, ancho: int)
    requires IsRect(g, alto, ancho) && alto > 0 && ancho > 0
    requires !Complete(g)
    ensures exists q, r :: q in Region(g) && Adjacent(q, r) && InBounds(g, r) && r !in Region(g)
  {
    if !exists q, r :: q in Region(g) && Adjacent(q, r) && InBounds(g, r) && r !in Region(g) {
      forall q | InBounds(g, q) ensures q in Region(g) {
        ClosedRegionCovers(g, alto, ancho, q.0, q.1);
      }
      CompleteIffRegionIsBoard(g, alto, ancho);
    }
  }

  /** On an incomplete seeded board some used colour strictly grows the
      region: the colour of a frontier cell. */
  lemma SomeColourGrows(g: Grid, alto: int, ancho: int, colores: set<int>)
    requires IsRect(g, alto, ancho) && alto > 0 && ancho > 0
    requires Seeded(g, colores) && !Complete(g)
    ensures exists b :: b in colores && AreaAfter(g, b) > |Region(g)|
  {
    FrontierExists(g, alto, ancho);
    var q, r :| q in Region(g) && Adjacent(q, r) && InBounds(g, r) && r !in Region(g);
    var b := At(g, r);
    assert b in colores;
    var R := Region(g);
    var R' := Region(Recolor(g, b));
    assert R + {r} <= R' by {
      RegionGrows(g, b);
      RegionAbsorbs(g, b, q, r);
    }
    SubsetCard(R + {r}, R');
    assert |R + {r}| == |R| + 1;
    assert AreaAfter(g, b) > |R|;
  }

  // ---------------------------------------------------------------------
  // Counting cells
  // ---------------------------------------------------------------------

  ghost function RowCells(i: int, w: nat): set<Cell>
  {
    set j | 0 <= j < w :: (i, j)
  }

  lemma {:induction false} RowCellsCard(i: int, w: nat)
    ensures |RowCells(i, w)| == w
  {
    if w > 0 {
      RowCellsCard(i, w - 1);
      assert RowCells(i, w) == RowCells(i, w - 1) + {(i, w - 1)};
    }
  }

  ghost function RectCells(h: nat, w: nat): set<Cell>
  {
    set i, j | 0 <= i < h && 0 <= j < w :: (i, j)
  }

  lemma {:induction false} RectCellsCard(h: nat, w: nat)
    ensures |RectCells(h, w)| == h * w
  {
    if h > 0 {
      var A, B := RectCells(h - 1, w), RowCells(h - 1, w);
      RectCellsCard(h - 1, w);
      RowCellsCard(h - 1, w);
      assert RectCells(h, w) == A + B by {
        forall q | q in RectCells(h, w) ensures q in A + B {
          var (i, j) := q;
          if i < h - 1 {
            assert (i, j) in A;
          } else {
            assert (i, j) in B;
          }
        }
      }
      assert A * B == {} by {
        forall q | q in A ensures q !in B {
        }
      }
      assert |A + B| == |A| + |B|;
      assert (h - 1) * w + w == h * w;
    }
  }

  /** A rectangular board has alto * ancho cells. */
  lemma CellsCard(g: Grid, alto: nat, ancho: nat)
    requires IsRect(g, alto, ancho)
    ensures |Cells(g)| == alto * ancho
  {
    assert Cells(g) == RectCells(alto, ancho);
    RectCellsCard(alto, ancho);
  }

  /** The measured region lies between 1 and the board size. */
  lemma RegionBounds(g: Grid, alto: nat, ancho: nat)
    requires IsRect(g, alto, ancho) && InBounds(g, Origin)
    ensures 1 <= |Region(g)| <= alto * ancho
  {
    OriginInRegion(g);
    SubsetCard(Region(g), Cells(g));
    CellsCard(g, alto, ancho);
  }

  // ---------------------------------------------------------------------
  // Counting the cells of one colour (the fill's termination measure)
  // ---------------------------------------------------------------------

  function RowCountOf(r: seq<int>, d: int): nat
  {
    if r == [] then 0 else RowCountOf(r[1..], d) + (if r[0] == d then 1 else 0)
  }

  /** The number of cells of colour d. */
  function CountOf(g: Grid, d: int): nat
  {
    if g == [] then 0 else CountOf(g[1..], d) + RowCountOf(g[0], d)
  }

  /** Every cell of colour d in h already had colour d in g. */
  ghost predicate FewerOf(g: Grid, h: Grid, d: int)
  {
    SameShape(g, h) &&
    forall i, j :: 0 <= i < |g| && 0 <= j < |g[i]| && h[i][j] == d ==> g[i][j] == d
  }

  lemma FewerOfTail(g: Grid, h: Grid, d: int)
    requires FewerOf(g, h, d) && g != []
    ensures FewerOf(g[1..], h[1..], d)
  {
    var g', h' := g[1..], h[1..];
    forall i, j | 0 <= i < |g'| && 0 <= j < |g'[i]| && h'[i][j] == d ensures g'[i][j] == d {
      assert g'[i] == g[i + 1] && h'[i] == h[i + 1];
    }
  }

  lemma {:induction false} RowCountMono(r: seq<int>, s: seq<int>, d: int)
    requires |r| == |s| && forall j :: 0 <= j < |r| && s[j] == d ==> r[j] == d
    ensures RowCountOf(s, d) <= RowCountOf(r, d)
  {
    if r != [] {
      RowCountMono(r[1..], s[1..], d);
    }
  }

  lemma {:induction false} RowCountStrict(r: seq<int>, s: seq<int>, d: int, k: int)
    requires |r| == |s| && forall j :: 0 <= j < |r| && s[j] == d ==> r[j] == d
    requires 0 <= k < |r| && r[k] == d && s[k] != d
    ensures RowCountOf(s, d) < RowCountOf(r, d)
  {
    if k == 0 {
      RowCountMono(r[1..], s[1..], d);
    } else {
      RowCountStrict(r[1..], s[1..], d, k - 1);
    }
  }

  /** Taking away cells of colour d never raises their count ... */
  lemma {:induction false} CountMono(g: Grid, h: Grid, d: int)
    requires FewerOf(g, h, d)
    ensures CountOf(h, d) <= CountOf(g, d)
  {
    if g != [] {
      FewerOfTail(g, h, d);
      CountMono(g[1..], h[1..], d);
      RowCountMono(g[0], h[0], d);
    }
  }

  /** ... and taking away one of them lowers it. */
  lemma {:induction false} CountStrict(g: Grid, h: Grid, d: int, p: Cell)
    requires FewerOf(g, h, d)
    requires InBounds(g, p) && At(g, p) == d && h[p.0][p.1] != d
    ensures CountOf(h, d) < CountOf(g, d)
  {
    FewerOfTail(g, h, d);
    if p.0 == 0 {
      CountMono(g[1..], h[1..], d);
      RowCountStrict(g[0], h[0], d, p.1);
    } else {
      CountStrict(g[1..], h[1..], d, (p.0 - 1, p.1));
      RowCountMono(g[0], h[0], d);
    }
  }

  /** Painting a cell of colour d with another colour lowers the count. */
  lemma CountPaint(g: Grid, p: Cell, d: int, c: int)
    requires InBounds(g, p) && At(g, p) == d && c != d
    ensures CountOf(Paint(g, p, c), d) < CountOf(g, d)
  {
    var h := Paint(g, p, c);
    assert FewerOf(g, h, d) by {
      forall i, j | 0 <= i < |g| && 0 <= j < |g[i]| && h[i][j] == d ensures g[i][j] == d {
        assert InBounds(g, (i, j));
      }
    }
    assert InBounds(g, p);
    CountStrict(g, h, d, p);
  }

  /** A fill with another colour keeps the count below any bound it was
      below before. */
  lemma CountFill(g: Grid, p: Cell, d: int, c: int, n: int)
    requires c != d && CountOf(g, d) < n
    ensures CountOf(Fill(g, p, d, c), d) < n
  {
    var h := Fill(g, p, d, c);
    FillAt(g, p, d, c);
    assert FewerOf(g, h, d) by {
      forall i, j | 0 <= i < |g| && 0 <= j < |g[i]| && h[i][j] == d ensures g[i][j] == d {
        assert InBounds(g, (i, j));
      }
    }
    CountMono(g, h, d);
  }
}
