/** The game (juegoflood.py): a live board, the move counter, the undo and
    redo stacks of board snapshots, the queue of solution steps and the
    greedy solver that fills it.

    The session is described twice: as the class JuegoFlood whose methods
    update its fields, and as a value (Session) with the functions Move,
    Undo and Redo. Every method of the class is proved to change the state
    exactly as its function says, and the laws of undo and redo are proved
    about the functions. */
module FloodGame {
  import opened Wrappers
  import opened Regions
  import opened Grids
  import opened FloodBoard

  /** Python's ValueError, raised by reading the front of an empty queue. */
  datatype GameError = EmptySolution

  /** A history entry: a board snapshot and a colour. */
  type Entry = (Board, int)

  /** The whole observable state of a game. The stacks (`Pila`) have their
      top at the end of the sequence; the solution queue (`Cola`) has its
      front at index 0. */
  datatype Session = Session(
    board: Board,
    n: int,
    best: int,
    pasos: seq<int>,
    moves: seq<Entry>,
    redo: seq<Entry>)

  // ---------------------------------------------------------------------
  // Runs of moves
  // ---------------------------------------------------------------------

  /** A board the game can hold: well formed, with at least one used colour,
      and every cell outside the origin's region in a used colour. */
  ghost predicate GoodBoard(b: Board)
  {
    ValidBoard(b) && b.colores != {} && Seeded(b.tablero, b.colores)
  }

  /** pasos played from g one after another, each on a board that is not yet
      complete and each allowed on that board by rule. */
  ghost predicate RunOf(g: Grid, pasos: seq<int>, rule: (Grid, int) -> bool)
    requires InBounds(g, Origin)
    decreases |pasos|
  {
    pasos == [] ||
    (RunOf(g, pasos[..|pasos| - 1], rule) &&
     var h := ApplyMoves(g, pasos[..|pasos| - 1]);
     assert SameShape(g, h);
     !Complete(h) && rule(h, pasos[|pasos| - 1]))
  }

  /** pasos leaves g complete. */
  ghost predicate Solves(g: Grid, pasos: seq<int>)
    requires InBounds(g, Origin)
  {
    var h := ApplyMoves(g, pasos);
    assert SameShape(g, h);
    Complete(h)
  }

  lemma ApplyMovesSnoc(g: Grid, pasos: seq<int>, c: int)
    requires InBounds(g, Origin)
    ensures InBounds(ApplyMoves(g, pasos), Origin)
    ensures ApplyMoves(g, pasos + [c]) == Recolor(ApplyMoves(g, pasos), c)
  {
    assert (pasos + [c])[..|pasos|] == pasos;
  }

  /** Applying a first move and then the rest is applying them all. */
  lemma {:induction false} ApplyMovesCons(g: Grid, c: int, rest: seq<int>)
    requires InBounds(g, Origin)
    ensures InBounds(Recolor(g, c), Origin)
    ensures ApplyMoves(Recolor(g, c), rest) == ApplyMoves(g, [c] + rest)
    decreases |rest|
  {
    if rest != [] {
      var init := rest[..|rest| - 1];
      ApplyMovesCons(g, c, init);
      assert ([c] + rest)[..|rest|] == [c] + init;
    }
  }

  /** The k-th move of a run, read off the run. */
  lemma {:induction false} RunAt(g: Grid, pasos: seq<int>, rule: (Grid, int) -> bool, k: int)
    requires InBounds(g, Origin) && RunOf(g, pasos, rule) && 0 <= k < |pasos|
    ensures InBounds(ApplyMoves(g, pasos[..k]), Origin)
    ensures !Complete(ApplyMoves(g, pasos[..k])) && rule(ApplyMoves(g, pasos[..k]), pasos[k])
    decreases |pasos|
  {
    var init := pasos[..|pasos| - 1];
    if k < |pasos| - 1 {
      RunAt(g, init, rule, k);
      assert init[..k] == pasos[..k];
    }
  }

  lemma RunSnoc(g: Grid, pasos: seq<int>, rule: (Grid, int) -> bool, c: int)
    requires InBounds(g, Origin) && RunOf(g, pasos, rule)
    requires InBounds(ApplyMoves(g, pasos), Origin)
    requires !Complete(ApplyMoves(g, pasos)) && rule(ApplyMoves(g, pasos), c)
    ensures RunOf(g, pasos + [c], rule)
  {
    assert (pasos + [c])[..|pasos|] == pasos;
  }

  /** The last step of RunTail: a run from the board after the first move,
      extended by the last move of the original run. */
  lemma RunTailLast(g: Grid, pasos: seq<int>, rule: (Grid, int) -> bool)
    requires InBounds(g, Origin) && |pasos| > 1
    requires InBounds(Recolor(g, pasos[0]), Origin)
    requires RunOf(Recolor(g, pasos[0]), pasos[1..|pasos| - 1], rule)
    requires InBounds(ApplyMoves(g, pasos[..|pasos| - 1]), Origin)
    requires !Complete(ApplyMoves(g, pasos[..|pasos| - 1]))
    requires rule(ApplyMoves(g, pasos[..|pasos| - 1]), pasos[|pasos| - 1])
    ensures RunOf(Recolor(g, pasos[0]), pasos[1..], rule)
  {
    var g1 := Recolor(g, pasos[0]);
    var init := pasos[..|pasos| - 1];
    var rest := pasos[1..];
    assert rest[..|rest| - 1] == init[1..] == pasos[1..|pasos| - 1];
    ApplyMovesCons(g, pasos[0], init[1..]);
    assert [pasos[0]] + init[1..] == init;
    assert ApplyMoves(g1, rest[..|rest| - 1]) == ApplyMoves(g, init);
  }

  /** The rest of a run is a run from the board after its first move. */
  lemma {:induction false} RunTail(g: Grid, pasos: seq<int>, rule: (Grid, int) -> bool)
    requires InBounds(g, Origin) && RunOf(g, pasos, rule) && pasos != []
    ensures InBounds(Recolor(g, pasos[0]), Origin)
    ensures RunOf(Recolor(g, pasos[0]), pasos[1..], rule)
    decreases |pasos|
  {
    var g1 := Recolor(g, pasos[0]);
    assert |g1[0]| == |g[0]|;
    if |pasos| > 1 {
      var init := pasos[..|pasos| - 1];
      RunTail(g, init, rule);
      assert init[0] == pasos[0] && init[1..] == pasos[1..|pasos| - 1];
      RunTailLast(g, pasos, rule);
    } else {
      assert pasos[1..] == [];
    }
  }

  /** A run that solves g is empty exactly when g is already complete. */
  lemma RunEmptyIffComplete(g: Grid, pasos: seq<int>, rule: (Grid, int) -> bool)
    requires InBounds(g, Origin) && RunOf(g, pasos, rule) && Solves(g, pasos)
    ensures pasos == [] <==> Complete(g)
  {
    if pasos != [] {
      RunAt(g, pasos, rule, 0);
      assert pasos[..0] == [];
    }
  }

  /** Playing the first move of a run that solves g leaves the rest of it a
      run that solves the new board. */
  lemma RunAfterFront(g: Grid, pasos: seq<int>, rule: (Grid, int) -> bool)
    requires InBounds(g, Origin) && RunOf(g, pasos, rule) && Solves(g, pasos) && pasos != []
    ensures InBounds(Recolor(g, pasos[0]), Origin)
    ensures RunOf(Recolor(g, pasos[0]), pasos[1..], rule)
    ensures Solves(Recolor(g, pasos[0]), pasos[1..])
  {
    RunTail(g, pasos, rule);
    ApplyMovesCons(g, pasos[0], pasos[1..]);
    assert [pasos[0]] + pasos[1..] == pasos;
  }

  // ---------------------------------------------------------------------
  // The greedy solution
  // ---------------------------------------------------------------------

  /** The solver's rule: the greedy colour among cs. */
  ghost function GreedyRule(cs: set<int>): (Grid, int) -> bool
  {
    (h: Grid, c: int) => InBounds(h, Origin) && GreedyChoice(h, cs, c)
  }

  /** pasos is the run of the greedy solver from g: every move is made on a
      board that is not yet complete and is the greedy choice there. */
  ghost predicate GreedyRun(g: Grid, cs: set<int>, pasos: seq<int>)
    requires InBounds(g, Origin)
  {
    RunOf(g, pasos, GreedyRule(cs))
  }

  /** The k-th move of a greedy run is the greedy choice on the board it is
      played on, which is not complete. */
  lemma GreedyRunAt(g: Grid, cs: set<int>, pasos: seq<int>, k: int)
    requires InBounds(g, Origin) && GreedyRun(g, cs, pasos) && 0 <= k < |pasos|
    ensures InBounds(ApplyMoves(g, pasos[..k]), Origin)
    ensures !Complete(ApplyMoves(g, pasos[..k]))
    ensures GreedyChoice(ApplyMoves(g, pasos[..k]), cs, pasos[k])
  {
    RunAt(g, pasos, GreedyRule(cs), k);
  }

  /** One greedy move on an incomplete seeded board grows the origin's
      region and keeps the board seeded. */
  lemma GreedyStepGrows(h: Grid, alto: int, ancho: int, cs: set<int>, c: int)
    requires IsRect(h, alto, ancho) && alto > 0 && ancho > 0
    requires Seeded(h, cs) && !Complete(h) && GreedyChoice(h, cs, c)
    ensures IsRect(Recolor(h, c), alto, ancho) && Seeded(Recolor(h, c), cs)
    ensures |Region(Recolor(h, c))| > |Region(h)|
  {
    SomeColourGrows(h, alto, ancho, cs);
    var b :| b in cs && AreaAfter(h, b) > |Region(h)|;
    assert AreaAfter(h, b) <= AreaAfter(h, c);
    SeededRecolor(h, cs, c);
  }

  /** Each greedy move on a seeded board grows the origin's region, so the
      region after the run has at least |pasos| more cells. */
  lemma {:induction false} GreedyRunGrows(g: Grid, alto: int, ancho: int, cs: set<int>, pasos: seq<int>)
    requires IsRect(g, alto, ancho) && alto > 0 && ancho > 0
    requires Seeded(g, cs) && GreedyRun(g, cs, pasos)
    ensures IsRect(ApplyMoves(g, pasos), alto, ancho)
    ensures Seeded(ApplyMoves(g, pasos), cs)
    ensures |Region(ApplyMoves(g, pasos))| >= |Region(g)| + |pasos|
    decreases |pasos|
  {
    if pasos != [] {
      var init := pasos[..|pasos| - 1];
      var c := pasos[|pasos| - 1];
      GreedyRunGrows(g, alto, ancho, cs, init);
      var h := ApplyMoves(g, init);
      GreedyStepGrows(h, alto, ancho, cs, c);
      assert ApplyMoves(g, pasos) == Recolor(h, c);
    }
  }

  /** The solver never needs as many moves as the board has cells. */
  lemma GreedyRunBound(g: Grid, alto: int, ancho: int, cs: set<int>, pasos: seq<int>)
    requires IsRect(g, alto, ancho) && alto > 0 && ancho > 0
    requires Seeded(g, cs) && GreedyRun(g, cs, pasos)
    ensures |pasos| < alto * ancho
  {
    GreedyRunGrows(g, alto, ancho, cs, pasos);
    RegionBounds(g, alto, ancho);
    RegionBounds(ApplyMoves(g, pasos), alto, ancho);
  }

  // ---------------------------------------------------------------------
  // The session as a value
  // ---------------------------------------------------------------------

  /** Board b holds colour c at the origin. */
  ghost predicate OriginIs(b: Board, c: int)
  {
    ValidBoard(b) && At(b.tablero, Origin) == c
  }

  /** Every board of the entries can be held by the game. */
  ghost predicate GoodBoards(es: seq<Entry>)
  {
    forall i :: 0 <= i < |es| ==> GoodBoard(es[i].0)
  }

  /** The undo stack records the past: the colour of each entry is the one
      that was played on its board, so it is the origin colour of the board
      that followed (the next entry's, or the current board for the last). */
  ghost predicate MovesAgree(moves: seq<Entry>, board: Board)
  {
    (forall i, j :: 0 <= i && j == i + 1 && j < |moves| ==> OriginIs(moves[j].0, moves[i].1)) &&
    (moves != [] ==> OriginIs(board, moves[|moves| - 1].1))
  }

  /** The redo stack records the undone future: each entry holds a board and
      the colour at its origin, the colour that led to it. */
  ghost predicate RedoAgrees(redo: seq<Entry>)
  {
    forall i :: 0 <= i < |redo| ==> OriginIs(redo[i].0, redo[i].1)
  }

  /** The board a move of colour c makes of b (a board that is not well
      formed is left as it is; the game never holds one). */
  ghost function Played(b: Board, c: int): Board
  {
    if ValidBoard(b) then b.(tablero := Recolor(b.tablero, c)) else b
  }

  /** Entry i of the undo stack, stepped with its colour, gives entry i + 1. */
  ghost predicate MovesLink(moves: seq<Entry>, i: int, step: (Board, int) -> Board)
  {
    0 <= i && i + 1 < |moves| && step(moves[i].0, moves[i].1) == moves[i + 1].0
  }

  /** The undo stack replays to the current board under step: each stored
      board, stepped with its stored colour, gives the next stored board, and
      the last one gives the current board. */
  ghost predicate MovesChain(moves: seq<Entry>, board: Board, step: (Board, int) -> Board)
  {
    (forall i :: 0 <= i < |moves| - 1 ==> MovesLink(moves, i, step)) &&
    (moves != [] ==> step(moves[|moves| - 1].0, moves[|moves| - 1].1) == board)
  }

  /** Entry i + 1 of the redo stack, stepped with the colour of entry i,
      gives entry i. */
  ghost predicate RedoLink(redo: seq<Entry>, i: int, step: (Board, int) -> Board)
  {
    0 <= i && i + 1 < |redo| && step(redo[i + 1].0, redo[i].1) == redo[i].0
  }

  /** The redo stack replays from the current board under step: the current
      board, stepped with the top entry's colour, gives the top board, and
      each board below the top is what the board above it gives when
      stepped with its colour. */
  ghost predicate RedoChain(redo: seq<Entry>, board: Board, step: (Board, int) -> Board)
  {
    (forall i :: 0 <= i < |redo| - 1 ==> RedoLink(redo, i, step)) &&
    (redo != [] ==> step(board, redo[|redo| - 1].1) == redo[|redo| - 1].0)
  }

  /** The counter matches the undo stack, every board can be held by the
      game, and the stored colours agree with the boards' origins. */
  ghost predicate StacksAgree(s: Session)
  {
    GoodBoard(s.board) &&
    s.n == |s.moves| &&
    GoodBoards(s.moves) && GoodBoards(s.redo) &&
    MovesAgree(s.moves, s.board) &&
    RedoAgrees(s.redo)
  }

  /** What every reachable game state satisfies. */
  ghost predicate SessionInv(s: Session)
  {
    StacksAgree(s) && MovesChain(s.moves, s.board, Played) && RedoChain(s.redo, s.board, Played)
  }

  /** `cambiar_color(c)`: count the move, push the current board with c,
      forget the redo stack, keep the rest of the solution when c is its
      front and drop it otherwise, and repaint the board. */
  ghost function Move(s: Session, c: int): Session
    requires ValidBoard(s.board)
  {
    s.(n := s.n + 1,
       moves := s.moves + [(s.board, c)],
       redo := [],
       pasos := if |s.pasos| > 0 && s.pasos[0] == c then s.pasos[1..] else [],
       board := s.board.(tablero := Recolor(s.board.tablero, c)))
  }

  /** `deshacer`: with a past, reinstall its last board and push the current
      board with its origin colour onto the redo stack; without one,
      nothing changes. */
  ghost function Undo(s: Session): Session
    requires ValidBoard(s.board)
  {
    if s.moves == [] then s
    else
      s.(n := s.n - 1,
         moves := s.moves[..|s.moves| - 1],
         redo := s.redo + [(s.board, At(s.board.tablero, Origin))],
         board := s.moves[|s.moves| - 1].0)
  }

  /** `rehacer`: with an undone future, reinstall its top board and push the
      current board with the top's colour onto the undo stack; without one,
      nothing changes. */
  ghost function Redo(s: Session): Session
  {
    if s.redo == [] then s
    else
      s.(n := s.n + 1,
         redo := s.redo[..|s.redo| - 1],
         moves := s.moves + [(s.board, s.redo[|s.redo| - 1].1)],
         board := s.redo[|s.redo| - 1].0)
  }

  /** A fresh game on a board it can hold: no moves, nothing to redo. */
  lemma InitialSession(b: Board, best: int)
    requires GoodBoard(b)
    ensures SessionInv(Session(b, 0, best, [], [], []))
  {
  }

  /** Pushing the current board with the colour stepped on it keeps the
      undo stack replaying to the new board. */
  lemma MovesChainPush(moves: seq<Entry>, board: Board, c: int, step: (Board, int) -> Board)
    requires MovesChain(moves, board, step)
    ensures MovesChain(moves + [(board, c)], step(board, c), step)
  {
    var moves' := moves + [(board, c)];
    forall i | 0 <= i < |moves'| - 1 ensures MovesLink(moves', i, step) {
      if i < |moves| - 1 {
        assert MovesLink(moves, i, step);
      }
    }
  }

  /** Popping the undo stack leaves it replaying to the popped board. */
  lemma MovesChainPop(moves: seq<Entry>, board: Board, step: (Board, int) -> Board)
    requires MovesChain(moves, board, step) && moves != []
    ensures MovesChain(moves[..|moves| - 1], moves[|moves| - 1].0, step)
  {
    var moves' := moves[..|moves| - 1];
    forall i | 0 <= i < |moves'| - 1 ensures MovesLink(moves', i, step) {
      assert MovesLink(moves, i, step);
    }
    if |moves'| > 0 {
      assert MovesLink(moves, |moves'| - 1, step);
    }
  }

  /** Pushing the current board onto the redo stack, when the board b0 that
      replaces it steps to it with colour c, keeps the redo stack replaying
      from b0. */
  lemma RedoChainPush(redo: seq<Entry>, board: Board, b0: Board, c: int, step: (Board, int) -> Board)
    requires step(b0, c) == board && RedoChain(redo, board, step)
    ensures RedoChain(redo + [(board, c)], b0, step)
  {
    var redo' := redo + [(board, c)];
    forall i | 0 <= i < |redo'| - 1 ensures RedoLink(redo', i, step) {
      if i < |redo| - 1 {
        assert RedoLink(redo, i, step);
      }
    }
  }

  /** Popping the redo stack leaves it replaying from the popped board. */
  lemma RedoChainPop(redo: seq<Entry>, board: Board, step: (Board, int) -> Board)
    requires RedoChain(redo, board, step) && redo != []
    ensures RedoChain(redo[..|redo| - 1], redo[|redo| - 1].0, step)
  {
    var redo' := redo[..|redo| - 1];
    forall i | 0 <= i < |redo'| - 1 ensures RedoLink(redo', i, step) {
      assert RedoLink(redo, i, step);
    }
    if |redo'| > 0 {
      assert RedoLink(redo, |redo'| - 1, step);
    }
  }

  lemma MoveKeepsAgreement(s: Session, c: int)
    requires StacksAgree(s)
    ensures StacksAgree(Move(s, c))
  {
    var s' := Move(s, c);
    var b := s.board;
    SeededRecolor(b.tablero, b.colores, c);
    RecolorOrigin(b.tablero, c);
    assert GoodBoard(s'.board) && OriginIs(s'.board, c);
    assert forall i :: 0 <= i < |s.moves| ==> s'.moves[i] == s.moves[i];
  }

  lemma UndoKeepsAgreement(s: Session)
    requires StacksAgree(s)
    ensures StacksAgree(Undo(s))
  {
    if s.moves != [] {
      var s' := Undo(s);
      var k := |s.moves| - 1;
      assert GoodBoard(s.moves[k].0);
      assert forall i :: 0 <= i < |s.redo| ==> s'.redo[i] == s.redo[i];
      assert s'.redo[|s.redo|] == (s.board, At(s.board.tablero, Origin));
      if k > 0 {
        assert OriginIs(s.moves[k].0, s.moves[k - 1].1);
      }
    }
  }

  lemma RedoKeepsAgreement(s: Session)
    requires StacksAgree(s)
    ensures StacksAgree(Redo(s))
  {
    if s.redo != [] {
      var s' := Redo(s);
      var k := |s.redo| - 1;
      assert GoodBoard(s.redo[k].0) && OriginIs(s.redo[k].0, s.redo[k].1);
      assert forall i :: 0 <= i < |s.moves| ==> s'.moves[i] == s.moves[i];
      assert s'.moves[|s.moves|] == (s.board, s.redo[k].1);
    }
  }

  lemma MovePreserves(s: Session, c: int)
    requires SessionInv(s)
    ensures SessionInv(Move(s, c))
  {
    MoveKeepsAgreement(s, c);
    MovesChainPush(s.moves, s.board, c, Played);
    assert Played(s.board, c) == Move(s, c).board;
  }

  lemma UndoPreserves(s: Session)
    requires SessionInv(s)
    ensures SessionInv(Undo(s))
  {
    UndoKeepsAgreement(s);
    if s.moves != [] {
      var k := |s.moves| - 1;
      var b0 := s.moves[k].0;
      assert OriginIs(s.board, s.moves[k].1);
      MovesChainPop(s.moves, s.board, Played);
      RedoChainPush(s.redo, s.board, b0, At(s.board.tablero, Origin), Played);
    }
  }

  lemma RedoPreserves(s: Session)
    requires SessionInv(s)
    ensures SessionInv(Redo(s))
  {
    RedoKeepsAgreement(s);
    if s.redo != [] {
      var k := |s.redo| - 1;
      RedoChainPop(s.redo, s.board, Played);
      MovesChainPush(s.moves, s.board, s.redo[k].1, Played);
    }
  }

  /** Undoing a move restores the board, the move count and the undo stack,
      and leaves the move (the repainted board with its colour) alone on the
      redo stack. */
  lemma UndoAfterMove(s: Session, c: int)
    requires StacksAgree(s)
    ensures Undo(Move(s, c)) == s.(pasos := Move(s, c).pasos, redo := [(Move(s, c).board, c)])
  {
    RecolorOrigin(s.board.tablero, c);
    assert (s.moves + [(s.board, c)])[..|s.moves|] == s.moves;
  }

  /** Redo cancels undo. */
  lemma RedoAfterUndo(s: Session)
    requires StacksAgree(s) && s.moves != []
    ensures Redo(Undo(s)) == s
  {
    var k := |s.moves| - 1;
    assert OriginIs(s.board, s.moves[k].1);
    assert s.moves[..k] + [s.moves[k]] == s.moves;
    assert (s.redo + [(s.board, s.moves[k].1)])[..|s.redo|] == s.redo;
  }

  /** Undo cancels redo. */
  lemma UndoAfterRedo(s: Session)
    requires StacksAgree(s) && s.redo != []
    ensures Undo(Redo(s)) == s
  {
    var k := |s.redo| - 1;
    assert OriginIs(s.redo[k].0, s.redo[k].1);
    assert s.redo[..k] + [s.redo[k]] == s.redo;
    assert (s.moves + [(s.board, s.redo[k].1)])[..|s.moves|] == s.moves;
  }

  /** A move with the front of a greedy solution keeps the rest of it as a
      greedy solution of the new board; any other move empties the queue. */
  lemma MoveFollowsSolution(s: Session, c: int)
    requires SessionInv(s)
    requires GreedyRun(s.board.tablero, s.board.colores, s.pasos) && Solves(s.board.tablero, s.pasos)
    ensures var s' := Move(s, c);
            if |s.pasos| > 0 && s.pasos[0] == c then
              s'.pasos == s.pasos[1..] &&
              GreedyRun(s'.board.tablero, s'.board.colores, s'.pasos) &&
              Solves(s'.board.tablero, s'.pasos)
            else s'.pasos == []
  {
    if |s.pasos| > 0 && s.pasos[0] == c {
      RunAfterFront(s.board.tablero, s.pasos, GreedyRule(s.board.colores));
    }
  }

  // ---------------------------------------------------------------------
  // The game object
  // ---------------------------------------------------------------------

  class JuegoFlood {
    var flood: Flood
    var mejorNMovimientos: int
    var nMovimientos: int
    var pasosSolucion: seq<int>
    var historialMovimientos: seq<Entry>
    var historialRehacer: seq<Entry>

    /** The fields as a value. */
    ghost function State(): Session
      reads this, flood
    {
      Session(flood.Snapshot(), nMovimientos, mejorNMovimientos, pasosSolucion,
              historialMovimientos, historialRehacer)
    }

    ghost predicate Valid()
      reads this, flood
    {
      flood.Valid() && SessionInv(State())
    }

    /** `JuegoFlood(alto, ancho, n_colores)`: a board seeded with the colours
        semilla (what the random draws in 1..nColores produced), the length
        of the greedy solution of it, no moves, an empty solution queue and
        empty stacks. */
    constructor (alto: int, ancho: int, nColores: int, semilla: Grid)
      requires alto > 0 && ancho > 0 && IsRect(semilla, alto, ancho)
      requires forall q :: InBounds(semilla, q) ==> 1 <= At(semilla, q) <= nColores
      ensures Valid()
      ensures State() == Session(Board(alto, ancho, ColoursOf(semilla), semilla), 0,
                                 mejorNMovimientos, [], [], [])
      ensures forall c :: c in flood.coloresUsados ==> 1 <= c <= nColores
      ensures exists pasos :: GreedyRun(semilla, ColoursOf(semilla), pasos) && Solves(semilla, pasos) &&
                              mejorNMovimientos == |pasos|
      ensures 0 <= mejorNMovimientos < alto * ancho
    {
      var f := new Flood(alto, ancho);
      f.MezclarTablero(semilla);
      ColoursInRange(semilla, nColores);
      SeedingIsSeeded(semilla, f.coloresUsados);
      assert At(semilla, Origin) in f.coloresUsados;
      ghost var b := f.Snapshot();
      assert b == Board(alto, ancho, ColoursOf(semilla), semilla);
      var cantidad, pasos := CalcularMovimientos(f);
      InitialSession(b, cantidad);
      flood := f;
      mejorNMovimientos := cantidad;
      nMovimientos := 0;
      pasosSolucion := [];
      historialMovimientos := [];
      historialRehacer := [];
    }

    /** `cambiar_color`: the state changes as Move says. The solver is run
        again afterwards and its result discarded; it changes nothing. */
    method CambiarColor(color: int)
      requires Valid()
      modifies this, flood
      ensures Valid() && flood == old(flood)
      ensures State() == Move(old(State()), color)
      ensures mejorNMovimientos == old(mejorNMovimientos)
    {
      ghost var s := State();
      nMovimientos := nMovimientos + 1;
      var estadoAnt := flood.Clonar();
      historialMovimientos := historialMovimientos + [(estadoAnt.Snapshot(), color)];
      historialRehacer := [];
      if |pasosSolucion| > 0 && pasosSolucion[0] == color {
        pasosSolucion := pasosSolucion[1..];
      } else {
        pasosSolucion := [];
      }
      flood.CambiarColor(color);
      assert State() == Move(s, color);
      MovePreserves(s, color);
      assert Valid();
      var cantidad, pasos := CalcularMovimientos(flood);
    }

    /** `deshacer`: the state changes as Undo says. */
    method Deshacer()
      requires Valid()
      modifies this
      ensures Valid()
      ensures State() == Undo(old(State()))
      ensures mejorNMovimientos == old(mejorNMovimientos)
    {
      ghost var s := State();
      if |historialMovimientos| > 0 {
        var (estadoAnt, _) := historialMovimientos[|historialMovimientos| - 1];
        historialMovimientos := historialMovimientos[..|historialMovimientos| - 1];
        var copia := flood.Clonar();
        var origen := flood.ObtenerColor(0, 0);
        historialRehacer := historialRehacer + [(copia.Snapshot(), origen.value)];
        assert GoodBoard(estadoAnt);
        flood := new Flood.FromBoard(estadoAnt);
        nMovimientos := nMovimientos - 1;
        assert State() == Undo(s);
        UndoPreserves(s);
      }
    }

    /** `rehacer`: the state changes as Redo says. */
    method Rehacer()
      requires Valid()
      modifies this
      ensures Valid()
      ensures State() == Redo(old(State()))
      ensures mejorNMovimientos == old(mejorNMovimientos)
    {
      ghost var s := State();
      if |historialRehacer| > 0 {
        var (estadoProx, color) := historialRehacer[|historialRehacer| - 1];
        historialRehacer := historialRehacer[..|historialRehacer| - 1];
        var copia := flood.Clonar();
        historialMovimientos := historialMovimientos + [(copia.Snapshot(), color)];
        assert GoodBoard(estadoProx);
        flood := new Flood.FromBoard(estadoProx);
        nMovimientos := nMovimientos + 1;
        assert State() == Redo(s);
        RedoPreserves(s);
      }
    }

    /** `hay_proximo_paso`: whether a solution step is queued. */
    function HayProximoPaso(): (b: bool)
      reads this
      ensures b <==> ProximoPaso().Ok?
    {
      |pasosSolucion| > 0
    }

    /** `proximo_paso`: the front of the solution queue, or ValueError when
        it is empty. */
    function ProximoPaso(): (r: Result<int, GameError>)
      reads this
      ensures r.Ok? <==> pasosSolucion != []
      ensures r.Ok? ==> r.value == pasosSolucion[0]
    {
      if |pasosSolucion| > 0 then Ok(pasosSolucion[0]) else Err(EmptySolution)
    }

    /** `calcular_nueva_solucion`: replace the queue by the greedy solution
        of the current board; a step is then queued exactly when the board
        is not complete. */
    method CalcularNuevaSolucion()
      requires Valid()
      modifies this
      ensures Valid()
      ensures State() == old(State()).(pasos := pasosSolucion)
      ensures GreedyRun(flood.tablero, flood.coloresUsados, pasosSolucion)
      ensures Solves(flood.tablero, pasosSolucion)
      ensures HayProximoPaso() <==> !Complete(flood.tablero)
    {
      var cantidad, pasos := CalcularMovimientos(flood);
      pasosSolucion := pasos;
      RunEmptyIffComplete(flood.tablero, pasos, GreedyRule(flood.coloresUsados));
    }

    /** `dimensiones` of the live board. */
    function Dimensiones(): (r: (int, int))
      reads this, flood
      requires Valid()
      ensures IsRect(flood.tablero, r.0, r.1) && r.0 > 0 && r.1 > 0
    {
      flood.Dimensiones()
    }

    /** `obtener_color` of the live board. */
    function ObtenerColor(fil: int, col: int): (r: Result<int, Error>)
      reads this, flood
      requires Valid()
      ensures r.Ok? <==> -flood.alto <= fil < flood.alto && -flood.ancho <= col < flood.ancho
      ensures 0 <= fil < flood.alto && 0 <= col < flood.ancho ==> r == Ok(At(flood.tablero, (fil, col)))
      ensures r.Ok? ==> r.value == At(flood.tablero, (PyIndex(fil, flood.alto).value, PyIndex(col, flood.ancho).value))
    {
      flood.ObtenerColor(fil, col)
    }

    /** `obtener_posibles_colores` of the live board. */
    method ObtenerPosiblesColores() returns (r: seq<int>)
      ensures forall i, j :: 0 <= i < j < |r| ==> r[i] < r[j]
      ensures forall x :: x in r <==> x in flood.coloresUsados
    {
      r := flood.ObtenerPosiblesColores();
    }

    /** `esta_completado` of the live board. */
    method EstaCompletado() returns (b: bool)
      requires Valid()
      ensures b <==> Complete(flood.tablero)
    {
      b := flood.EstaCompletado();
    }
  }

  /** `_calcular_movimientos`: on a clone of the game's board, play the
      greedy colour until the clone is complete (the game's `flood` is
      passed in). The steps are the greedy run from the current
      board, they solve it, and the count is their number. */
  method CalcularMovimientos(flood: Flood) returns (cantidad: nat, pasos: seq<int>)
    requires flood.Valid() && GoodBoard(flood.Snapshot())
    ensures cantidad == |pasos| < flood.alto * flood.ancho
    ensures GreedyRun(flood.tablero, flood.coloresUsados, pasos)
    ensures Solves(flood.tablero, pasos)
  {
    ghost var g, cs := flood.tablero, flood.coloresUsados;
    var aux := flood.Clonar();
    cantidad := 0;
    pasos := [];
    var completo := aux.EstaCompletado();
    RegionBounds(g, aux.alto, aux.ancho);
    while !completo
      invariant aux.Valid() && aux.alto == flood.alto && aux.ancho == flood.ancho
      invariant aux.coloresUsados == cs
      invariant aux.tablero == ApplyMoves(g, pasos)
      invariant Seeded(aux.tablero, cs)
      invariant GreedyRun(g, cs, pasos)
      invariant cantidad == |pasos|
      invariant completo <==> Complete(aux.tablero)
      invariant |Region(aux.tablero)| <= aux.alto * aux.ancho
      decreases aux.alto * aux.ancho - |Region(aux.tablero)|
    {
      ghost var h := aux.tablero;
      var colorOptimo := aux.SeleccionarColorOptimo();
      var color := colorOptimo.value;
      GreedyStepGrows(h, aux.alto, aux.ancho, cs, color);
      aux.CambiarColor(color);
      ApplyMovesSnoc(g, pasos, color);
      RunSnoc(g, pasos, GreedyRule(cs), color);
      RegionBounds(aux.tablero, aux.alto, aux.ancho);
      pasos := pasos + [color];
      cantidad := cantidad + 1;
      completo := aux.EstaCompletado();
    }
    GreedyRunBound(g, flood.alto, flood.ancho, cs, pasos);
  }

  /** The colours seeded from draws in 1..nColores lie in 1..nColores. */
  lemma ColoursInRange(g: Grid, nColores: int)
    requires forall q :: InBounds(g, q) ==> 1 <= At(g, q) <= nColores
    ensures forall c :: c in ColoursOf(g) ==> 1 <= c <= nColores
  {
    assert ColoursOf(g) == SeededColours(g, |g|, 0);
    forall c | c in ColoursOf(g) ensures 1 <= c <= nColores {
      var q :| q in Cells(g) && (q.0 < |g| || (q.0 == |g| && q.1 < 0)) && At(g, q) == c;
    }
  }
}
