/** The Flood board (flood.py): a rectangular grid of integer colours, the
    set of colours used when it was seeded, the recursive flood fill from the
    origin, completion, region measurement and the greedy colour choice. */
module FloodBoard {
  import opened Wrappers
  import opened Regions
  import opened Grids

  /** Python's IndexError, raised by reading outside the grid. */
  datatype Error = IndexError

  /** A value copy of a board: what `clonar` produces, kept as a value so
      that a game's history can never alias the live board. */
  datatype Board = Board(alto: int, ancho: int, colores: set<int>, tablero: Grid)

  predicate ValidBoard(b: Board)
  {
    b.alto > 0 && b.ancho > 0 && IsRect(b.tablero, b.alto, b.ancho)
  }

  /** The position Python's `xs[i]` reads in a list of length n, if any:
      negative indices count from the end. */
  function PyIndex(i: int, n: int): (r: Option<int>)
    ensures r.Some? <==> -n <= i < n
    ensures r.Some? ==> 0 <= r.value < n
    ensures 0 <= i < n ==> r == Some(i)
    ensures r.Some? && i < 0 ==> r.value == i + n
  {
    if 0 <= i < n then Some(i)
    else if -n <= i < 0 then Some(i + n)
    else None
  }

  // ---------------------------------------------------------------------
  // sorted(colores_usados)
  // ---------------------------------------------------------------------

  /** A non-empty set of colours has a least member. Stated without a
      precondition: the case split below is on whether s has a member. */
  lemma {:induction false} MinExists(s: set<int>)
    ensures s != {} ==> exists m :: m in s && forall x :: x in s ==> m <= x
    decreases |s|
  {
    if !exists y :: y in s {
      assert s == {};
    } else {
      var y :| y in s;
      if s != {y} {
        MinExists(s - {y});
        assert s - {y} != {} by {
          var z :| z in s && z != y;
          assert z in s - {y};
        }
        var m :| m in s - {y} && forall x :: x in s - {y} ==> m <= x;
        var least := if y < m then y else m;
        forall x | x in s ensures least <= x {
          if x != y {
            assert x in s - {y};
          }
        }
      } else {
        assert forall x :: x in s ==> y <= x;
      }
    }
  }

  function SetMin(s: set<int>): (m: int)
    requires s != {}
    ensures m in s && forall x :: x in s ==> m <= x
  {
    MinExists(s);
    var m :| m in s && forall x :: x in s ==> m <= x;
    m
  }

  /** The colours of s in strictly ascending order, each exactly once. */
  function SortedColours(s: set<int>): (r: seq<int>)
    ensures forall i, j :: 0 <= i < j < |r| ==> r[i] < r[j]
    ensures forall x :: x in r <==> x in s
    ensures |r| == |s|
    decreases |s|
  {
    if s == {} then []
    else
      var m := SetMin(s);
      [m] + SortedColours(s - {m})
  }

  // ---------------------------------------------------------------------
  // Colours written by seeding
  // ---------------------------------------------------------------------

  /** The colours of g in the cells before (fil, col) in row-major order. */
  ghost function SeededColours(g: Grid, fil: int, col: int): set<int>
  {
    set q | q in Cells(g) && (q.0 < fil || (q.0 == fil && q.1 < col)) :: At(g, q)
  }

  lemma SeededColoursStep(g: Grid, fil: int, col: int)
    requires InBounds(g, (fil, col))
    ensures SeededColours(g, fil, col + 1) == SeededColours(g, fil, col) + {g[fil][col]}
  {
    var p := (fil, col);
    assert At(g, p) in SeededColours(g, fil, col + 1);
  }

  /** Copying cell (fil, col) of s into t, whose earlier rows and cells
      already agree with s, keeps t rectangular and extends the agreement
      by that cell. */
  lemma WriteCell(t: Grid, s: Grid, alto: int, ancho: int, fil: int, col: int)
    requires IsRect(t, alto, ancho) && IsRect(s, alto, ancho)
    requires 0 <= fil < alto && 0 <= col < ancho
    requires forall i :: 0 <= i < fil ==> t[i] == s[i]
    requires t[fil][..col] == s[fil][..col]
    ensures var t' := t[fil := t[fil][col := s[fil][col]]];
            IsRect(t', alto, ancho) &&
            (forall i :: 0 <= i < fil ==> t'[i] == s[i]) &&
            t'[fil][..col + 1] == s[fil][..col + 1]
  {
    var t' := t[fil := t[fil][col := s[fil][col]]];
    assert forall j :: 0 <= j < col ==> t'[fil][j] == t[fil][..col][j];
  }

  lemma SeededColoursRow(g: Grid, fil: int, ancho: int)
    requires 0 <= fil < |g| && |g[fil]| == ancho
    ensures SeededColours(g, fil, ancho) == SeededColours(g, fil + 1, 0)
  {
  }

  /** Every colour some cell of g holds. */
  ghost function ColoursOf(g: Grid): (s: set<int>)
    ensures forall q :: InBounds(g, q) ==> At(g, q) in s
  {
    var s := SeededColours(g, |g|, 0);
    assert forall q :: InBounds(g, q) ==> At(g, q) in s by {
      forall q | InBounds(g, q) ensures At(g, q) in s {
        assert q in Cells(g);
      }
    }
    s
  }

  /** A freshly seeded board: every cell holds a used colour, so it is in
      particular seeded outside the origin's region. */
  lemma SeedingIsSeeded(g: Grid, colores: set<int>)
    requires InBounds(g, Origin) && ColoursOf(g) <= colores
    ensures Seeded(g, colores)
  {
  }

  class Flood {
    const alto: int
    const ancho: int
    var coloresUsados: set<int>
    var tablero: Grid

    /** The board as a value (the contents of a clone). */
    function Snapshot(): Board
      reads this
    {
      Board(alto, ancho, coloresUsados, tablero)
    }

    ghost predicate Valid()
      reads this
    {
      alto > 0 && ancho > 0 && IsRect(tablero, alto, ancho)
    }

    /** `Flood(alto, ancho)`: a board of the given size, every cell 0, no
        colours used. */
    constructor (alto: int, ancho: int)
      requires alto > 0 && ancho > 0
      ensures Valid()
      ensures this.alto == alto && this.ancho == ancho && coloresUsados == {}
      ensures forall q :: InBounds(tablero, q) ==> At(tablero, q) == 0
    {
      this.alto := alto;
      this.ancho := ancho;
      coloresUsados := {};
      tablero := seq(alto, _ => seq(ancho, _ => 0));
    }

    /** A live board rebuilt from a clone: what assigning a stored clone back
        to the game's `flood` attribute yields. */
    constructor FromBoard(b: Board)
      requires ValidBoard(b)
      ensures Valid() && Snapshot() == b
    {
      alto, ancho, coloresUsados, tablero := b.alto, b.ancho, b.colores, b.tablero;
    }

    /** `mezclar_tablero` with the random colours supplied as the grid
        `semilla`: writes every cell in row-major order and records each
        colour written. */
    method MezclarTablero(semilla: Grid)
      requires Valid() && IsRect(semilla, alto, ancho)
      modifies this
      ensures Valid()
      ensures tablero == semilla
      ensures coloresUsados == old(coloresUsados) + ColoursOf(semilla)
    {
      ghost var c0 := coloresUsados;
      for fil := 0 to alto
        invariant IsRect(tablero, alto, ancho)
        invariant forall i :: 0 <= i < fil ==> tablero[i] == semilla[i]
        invariant coloresUsados == c0 + SeededColours(semilla, fil, 0)
      {
        for col := 0 to ancho
          invariant IsRect(tablero, alto, ancho)
          invariant forall i :: 0 <= i < fil ==> tablero[i] == semilla[i]
          invariant tablero[fil][..col] == semilla[fil][..col]
          invariant coloresUsados == c0 + SeededColours(semilla, fil, col)
        {
          var color := semilla[fil][col];
          WriteCell(tablero, semilla, alto, ancho, fil, col);
          tablero := tablero[fil := tablero[fil][col := color]];
          coloresUsados := coloresUsados + {color};
          SeededColoursStep(semilla, fil, col);
        }
        assert tablero[fil] == tablero[fil][..ancho];
        SeededColoursRow(semilla, fil, ancho);
      }
      assert tablero == semilla;
    }

    /** `obtener_color`: Python's indexing of the row list and then the row,
        so negative indices count from the end and anything else raises
        IndexError. */
    function ObtenerColor(fil: int, col: int): (r: Result<int, Error>)
      reads this
      requires Valid()
      ensures r.Ok? <==> -alto <= fil < alto && -ancho <= col < ancho
      ensures 0 <= fil < alto && 0 <= col < ancho ==> r == Ok(At(tablero, (fil, col)))
      ensures r.Ok? ==> r.value == At(tablero, (PyIndex(fil, alto).value, PyIndex(col, ancho).value))
    {
      match (PyIndex(fil, alto), PyIndex(col, ancho))
      case (Some(i), Some(j)) =>
        assert InBounds(tablero, (i, j));
        Ok(tablero[i][j])
      case _ => Err(IndexError)
    }

    /** `obtener_posibles_colores`: the used colours, ascending. */
    method ObtenerPosiblesColores() returns (r: seq<int>)
      ensures forall i, j :: 0 <= i < j < |r| ==> r[i] < r[j]
      ensures forall x :: x in r <==> x in coloresUsados
      ensures |r| == |coloresUsados|
    {
      r := SortedColours(coloresUsados);
    }

    /** `dimensiones`: the number of rows and of cells per row. */
    function Dimensiones(): (r: (int, int))
      reads this
      requires Valid()
      ensures IsRect(tablero, r.0, r.1) && r.0 > 0 && r.1 > 0
    {
      (alto, ancho)
    }

    /** `cambiar_color`: repaint the origin's region with colorNuevo. When the
        origin already holds colorNuevo nothing changes; the used colours are
        never extended. */
    method CambiarColor(colorNuevo: int)
      requires Valid()
      modifies this`tablero
      ensures Valid()
      ensures tablero == Recolor(old(tablero), colorNuevo)
      ensures coloresUsados == old(coloresUsados)
    {
      var colorActual := tablero[0][0];
      if colorActual == colorNuevo {
        RecolorSameColour(tablero, colorNuevo);
        return;
      }
      ghost var g0 := tablero;
      RellenarDesde(0, 0, colorActual, colorNuevo);
      GridExt(tablero, Recolor(g0, colorNuevo));
    }

    /** `_cambiar_color`: depth-first fill from (fil, col). A cell in bounds
        that still holds colorActual is painted and its four neighbours are
        filled in the order down, up, right, left. The result is the fill of
        the component of (fil, col) among the cells of colorActual. */
    method RellenarDesde(fil: int, col: int, colorActual: int, colorNuevo: int)
      requires IsRect(tablero, alto, ancho) && colorActual != colorNuevo
      modifies this`tablero
      ensures tablero == Fill(old(tablero), (fil, col), colorActual, colorNuevo)
      decreases CountOf(tablero, colorActual)
    {
      ghost var g0 := tablero;
      ghost var p := (fil, col);
      if fil < 0 || fil >= alto || col < 0 || col >= ancho || tablero[fil][col] != colorActual {
        FillIneligible(g0, p, colorActual, colorNuevo);
        return;
      }
      tablero := tablero[fil := tablero[fil][col := colorNuevo]];
      ghost var g1 := tablero;
      assert g1 == Paint(g0, p, colorNuevo);
      ghost var n0 := CountOf(g0, colorActual);
      CountPaint(g0, p, colorActual, colorNuevo);
      RellenarDesde(fil + 1, col, colorActual, colorNuevo);
      CountFill(g1, (fil + 1, col), colorActual, colorNuevo, n0);
      ghost var g2 := tablero;
      RellenarDesde(fil - 1, col, colorActual, colorNuevo);
      CountFill(g2, (fil - 1, col), colorActual, colorNuevo, n0);
      ghost var g3 := tablero;
      RellenarDesde(fil, col + 1, colorActual, colorNuevo);
      CountFill(g3, (fil, col + 1), colorActual, colorNuevo, n0);
      ghost var g4 := tablero;
      RellenarDesde(fil, col - 1, colorActual, colorNuevo);
      FillStep(g0, fil, col, colorActual, colorNuevo, g2, g3, g4, tablero);
    }

    /** `clonar`: a fresh board with the same size, colours and cells, built
        row by row. */
    method Clonar() returns (copia: Flood)
      requires Valid()
      ensures fresh(copia) && copia.Valid()
      ensures copia.Snapshot() == Snapshot()
    {
      copia := new Flood(alto, ancho);
      copia.coloresUsados := coloresUsados;
      copia.tablero := [];
      for i := 0 to |tablero|
        invariant copia.alto == alto && copia.ancho == ancho && copia.coloresUsados == coloresUsados
        invariant copia.tablero == tablero[..i]
      {
        var nuevaFila := tablero[i];
        copia.tablero := copia.tablero + [nuevaFila];
      }
      assert tablero[..|tablero|] == tablero;
    }

    /** `esta_completado`: scans the rows in order and stops at the first
        cell that differs from the origin. */
    method EstaCompletado() returns (b: bool)
      requires Valid()
      ensures b <==> Complete(tablero)
    {
      var colorActual := tablero[0][0];
      for fil := 0 to alto
        invariant forall i, j :: 0 <= i < fil && 0 <= j < ancho ==> tablero[i][j] == colorActual
      {
        for col := 0 to ancho
          invariant forall i, j :: 0 <= i < fil && 0 <= j < ancho ==> tablero[i][j] == colorActual
          invariant forall j :: 0 <= j < col ==> tablero[fil][j] == colorActual
        {
          if tablero[fil][col] != colorActual {
            return false;
          }
        }
      }
      return true;
    }

    /** `area_actual`: counts the cells 4-connected to (fil, col) through the
        origin's colour, skipping the visited cells and visiting the ones it
        counts. The visited dictionary, shared by the recursive calls, is
        threaded through as a set: the result is the count together with
        the visited set afterwards, which grows by exactly the counted
        cells. */
    function AreaActual(fil: int, col: int, visitados: set<Cell>): (r: (nat, set<Cell>))
      reads this
      requires Valid()
      ensures var E := CellsOf(tablero, At(tablero, Origin)) - visitados;
              r.1 == visitados + Component(E, (fil, col)) && r.0 == |Component(E, (fil, col))|
      decreases |CellsOf(tablero, At(tablero, Origin)) - visitados|
    {
      var colorActual := tablero[0][0];
      if 0 <= fil < alto && 0 <= col < ancho && tablero[fil][col] == colorActual && (fil, col) !in visitados then
        var v1 := visitados + {(fil, col)};
        ShrinkUnvisited(CellsOf(tablero, At(tablero, Origin)), visitados, (fil, col), v1);
        var (a, v2) := AreaActual(fil, col + 1, v1);
        ShrinkUnvisited(CellsOf(tablero, At(tablero, Origin)), visitados, (fil, col), v2);
        var (b, v3) := AreaActual(fil + 1, col, v2);
        ShrinkUnvisited(CellsOf(tablero, At(tablero, Origin)), visitados, (fil, col), v3);
        var (c, v4) := AreaActual(fil, col - 1, v3);
        ShrinkUnvisited(CellsOf(tablero, At(tablero, Origin)), visitados, (fil, col), v4);
        var (d, v5) := AreaActual(fil - 1, col, v4);
        AreaStep(CellsOf(tablero, At(tablero, Origin)), fil, col, visitados, v1, v2, v3, v4, v5, a, b, c, d);
        (1 + a + b + c + d, v5)
      else
        ComponentOfIneligible(CellsOf(tablero, At(tablero, Origin)) - visitados, (fil, col));
        (0, visitados)
    }

    /** `area_actual(0, 0, {})` counts the origin's region, each cell once:
        at least the origin and at most the whole board. */
    lemma AreaFromOrigin()
      requires Valid()
      ensures AreaActual(0, 0, {}).0 == |Region(tablero)|
      ensures 1 <= AreaActual(0, 0, {}).0 <= alto * ancho
    {
      assert CellsOf(tablero, At(tablero, Origin)) - {} == CellsOf(tablero, At(tablero, Origin));
      RegionBounds(tablero, alto, ancho);
    }

    /** One trial of `seleccionar_color_optimo`: repaint a clone with color
        and count the clone's region from the origin. */
    method AreaConColor(color: int) returns (n: nat)
      requires Valid()
      ensures n == AreaAfter(tablero, color) && n > 0
    {
      var aux := Clonar();
      aux.CambiarColor(color);
      n := aux.AreaActual(0, 0, {}).0;
      aux.AreaFromOrigin();
    }

    /** `seleccionar_color_optimo`: tries every used colour in ascending
        order on a clone and keeps the first one whose region is strictly
        larger than every earlier one. None only when no colour was used.
        The board itself is not touched: every trial runs on a clone. */
    method SeleccionarColorOptimo() returns (r: Option<int>)
      requires Valid()
      ensures r.None? <==> coloresUsados == {}
      ensures r.Some? ==> GreedyChoice(tablero, coloresUsados, r.value)
    {
      var coloresPosibles := ObtenerPosiblesColores();
      ghost var g, cs := tablero, coloresUsados;
      ghost var areas: seq<nat> := [];
      ghost var m := 0;
      var maxCantidadCasilleros := 0;
      r := None;
      for i := 0 to |coloresPosibles|
        invariant areas == Trials(g, coloresPosibles[..i])
        invariant r.None? <==> i == 0
        invariant r.None? ==> maxCantidadCasilleros == 0
        invariant r.Some? ==> FirstMax(areas, m, maxCantidadCasilleros) && r.value == coloresPosibles[m]
      {
        var color := coloresPosibles[i];
        var cantidadCasilleros := AreaConColor(color);
        TrialsSnoc(g, coloresPosibles, i);
        FirstMaxSnoc(areas, m, maxCantidadCasilleros, cantidadCasilleros);
        areas := areas + [cantidadCasilleros];
        if cantidadCasilleros > maxCantidadCasilleros {
          maxCantidadCasilleros := cantidadCasilleros;
          r := Some(color);
          m := i;
        }
      }
      if r.Some? {
        assert coloresPosibles[..|coloresPosibles|] == coloresPosibles;
        GreedyBest(g, coloresPosibles, cs, areas, m, maxCantidadCasilleros);
      }
    }
  }

  /** b is the colour the greedy solver picks among cs on board g: a used
      colour whose move leaves the largest region, and the smallest such
      colour, since a later colour only wins with a strictly larger region. */
  ghost predicate GreedyChoice(g: Grid, cs: set<int>, b: int)
    requires InBounds(g, Origin)
  {
    b in cs &&
    (forall c :: c in cs ==> AreaAfter(g, c) <= AreaAfter(g, b)) &&
    (forall c :: c in cs && c < b ==> AreaAfter(g, c) < AreaAfter(g, b))
  }

  /** areas[m] == best is a maximum of areas and the first one. */
  ghost predicate FirstMax(areas: seq<nat>, m: int, best: nat)
  {
    0 <= m < |areas| && areas[m] == best &&
    (forall k :: 0 <= k < |areas| ==> areas[k] <= best) &&
    (forall k :: 0 <= k < m ==> areas[k] < best)
  }

  /** One more trial of the greedy loop: a strictly larger area takes the
      lead, anything else leaves it where it was. */
  lemma FirstMaxSnoc(areas: seq<nat>, m: int, best: nat, n: nat)
    requires areas == [] ==> best == 0
    requires areas != [] ==> FirstMax(areas, m, best)
    ensures n > best ==> FirstMax(areas + [n], |areas|, n)
    ensures n <= best && areas != [] ==> FirstMax(areas + [n], m, best)
  {
  }

  /** The colour the greedy loop keeps is at least as good as every other
      used colour and strictly better than every smaller one. */
  lemma GreedyBest(g: Grid, cp: seq<int>, cs: set<int>, areas: seq<nat>, m: int, best: nat)
    requires InBounds(g, Origin)
    requires forall i, j :: 0 <= i < j < |cp| ==> cp[i] < cp[j]
    requires forall x :: x in cp <==> x in cs
    requires areas == Trials(g, cp) && FirstMax(areas, m, best)
    ensures GreedyChoice(g, cs, cp[m])
  {
    forall c | c in cs
      ensures AreaAfter(g, c) <= AreaAfter(g, cp[m])
      ensures c < cp[m] ==> AreaAfter(g, c) < AreaAfter(g, cp[m])
    {
      var k :| 0 <= k < |cp| && cp[k] == c;
      TrialsAt(g, cp, k);
      TrialsAt(g, cp, m);
      if c < cp[m] {
        assert k < m;
      }
    }
  }

  /** The region sizes the greedy choice measures, one per colour of cs in
      order. */
  ghost function Trials(g: Grid, cs: seq<int>): (A: seq<nat>)
    requires InBounds(g, Origin)
    ensures |A| == |cs|
    decreases |cs|
  {
    if cs == [] then [] else Trials(g, cs[..|cs| - 1]) + [AreaAfter(g, cs[|cs| - 1])]
  }

  lemma {:induction false} TrialsAt(g: Grid, cs: seq<int>, k: int)
    requires InBounds(g, Origin) && 0 <= k < |cs|
    ensures Trials(g, cs)[k] == AreaAfter(g, cs[k])
    decreases |cs|
  {
    if k < |cs| - 1 {
      TrialsAt(g, cs[..|cs| - 1], k);
    }
  }

  lemma TrialsSnoc(g: Grid, cs: seq<int>, i: int)
    requires InBounds(g, Origin) && 0 <= i < |cs|
    ensures Trials(g, cs[..i + 1]) == Trials(g, cs[..i]) + [AreaAfter(g, cs[i])]
  {
    assert cs[..i + 1][..i] == cs[..i];
  }

  /** Once p, an unvisited cell of D, has been visited, fewer cells of D are
      left unvisited. */
  lemma ShrinkUnvisited<T>(D: set<T>, v0: set<T>, p: T, v: set<T>)
    requires p in D && p !in v0 && v0 + {p} <= v
    ensures |D - v| < |D - v0|
  {
    assert D - v <= (D - v0) - {p};
    SubsetCard(D - v, (D - v0) - {p});
  }

  /** The bookkeeping of one step of the region count, on plain sets: visit
      p, then four parts C1..C4 of what is still unvisited in D. Each step
      removes its part from the unvisited cells and adds its size to the
      visited count. */
  lemma VisitSteps<T>(D: set<T>, p: T, v0: set<T>, v1: set<T>, v2: set<T>, v3: set<T>, v4: set<T>, v5: set<T>,
                      C1: set<T>, C2: set<T>, C3: set<T>, C4: set<T>)
    requires p in D && p !in v0 && v1 == v0 + {p}
    requires C1 <= D - v1 && v2 == v1 + C1
    requires C2 <= D - v2 && v3 == v2 + C2
    requires C3 <= D - v3 && v4 == v3 + C3
    requires C4 <= D - v4 && v5 == v4 + C4
    ensures D - v1 == (D - v0) - {p}
    ensures D - v2 == (D - v1) - C1 && D - v3 == (D - v2) - C2
    ensures D - v4 == (D - v3) - C3 && D - v5 == (D - v4) - C4
    ensures v5 - v0 <= D
    ensures |v5| == |v0| + 1 + |C1| + |C2| + |C3| + |C4|
  {
    assert v0 * {p} == {} && v1 * C1 == {} && v2 * C2 == {} && v3 * C3 == {} && v4 * C4 == {};
  }

  /** When the unvisited cells of D lost exactly C, a part of them, the
      visited set grew by exactly C. */
  lemma VisitedGrewBy<T>(D: set<T>, v0: set<T>, v5: set<T>, C: set<T>)
    requires C <= D - v0 && v0 <= v5 && v5 - v0 <= D
    requires D - v5 == (D - v0) - C
    ensures v5 == v0 + C && |v5| == |v0| + |C|
  {
    assert v5 - v0 == C;
    assert v0 * C == {};
  }

  /** One step of the region count: visiting p and then counting from its
      right, lower, left and upper neighbours, each on the cells the previous
      count left unvisited, visits and counts exactly the component of p. */
  lemma AreaStep(D: set<Cell>, fil: int, col: int, v0: set<Cell>, v1: set<Cell>,
                 v2: set<Cell>, v3: set<Cell>, v4: set<Cell>, v5: set<Cell>,
                 a: nat, b: nat, c: nat, d: nat)
    requires (fil, col) in D && (fil, col) !in v0 && v1 == v0 + {(fil, col)}
    requires v2 == v1 + Component(D - v1, (fil, col + 1)) && a == |Component(D - v1, (fil, col + 1))|
    requires v3 == v2 + Component(D - v2, (fil + 1, col)) && b == |Component(D - v2, (fil + 1, col))|
    requires v4 == v3 + Component(D - v3, (fil, col - 1)) && c == |Component(D - v3, (fil, col - 1))|
    requires v5 == v4 + Component(D - v4, (fil - 1, col)) && d == |Component(D - v4, (fil - 1, col))|
    ensures v5 == v0 + Component(D - v0, (fil, col))
    ensures 1 + a + b + c + d == |Component(D - v0, (fil, col))|
  {
    var p := (fil, col);
    VisitSteps(D, p, v0, v1, v2, v3, v4, v5,
               Component(D - v1, (fil, col + 1)), Component(D - v2, (fil + 1, col)),
               Component(D - v3, (fil, col - 1)), Component(D - v4, (fil - 1, col)));
    Neighbours(fil, col);
    SweepCompose(D - v0, p, (fil, col + 1), (fil + 1, col), (fil, col - 1), (fil - 1, col),
                 D - v2, D - v3, D - v4, D - v5);
    VisitedGrewBy(D, v0, v5, Component(D - v0, p));
  }
}
