/** Four-neighbour reachability inside a finite set of eligible cells.

    Both traversals of the board (the recursive flood fill and the recursive
    region count) remove cells from a set of "eligible" cells one at a time
    and then recurse on the four neighbours. This module states, once, what
    such a sweep leaves behind: exactly the eligible cells that are not
    4-connected to the start through eligible cells. */
module Regions {

  /** A board position (row, column). */
  type Cell = (int, int)

  /** Horizontal or vertical neighbours. */
  predicate Adjacent(p: Cell, q: Cell)
  {
    (p.0 == q.0 && (q.1 == p.1 + 1 || q.1 == p.1 - 1)) ||
    (p.1 == q.1 && (q.0 == p.0 + 1 || q.0 == p.0 - 1))
  }

  /** A non-empty walk of adjacent cells, every one of them in E. */
  ghost predicate PathIn(E: set<Cell>, path: seq<Cell>)
  {
    |path| > 0 &&
    (forall i :: 0 <= i < |path| ==> path[i] in E) &&
    (forall i, j :: 0 <= i && j == i + 1 && j < |path| ==> Adjacent(path[i], path[j]))
  }

  /** q can be reached from p by a walk inside E. */
  ghost predicate ReachesIn(E: set<Cell>, p: Cell, q: Cell)
  {
    exists path :: PathIn(E, path) && path[0] == p && path[|path| - 1] == q
  }

  /** The 4-connected component of p inside E (empty when p is not in E). */
  ghost function Component(E: set<Cell>, p: Cell): (C: set<Cell>)
    ensures C <= E
    ensures forall q :: q in C <==> q in E && ReachesIn(E, p, q)
  {
    set q | q in E && ReachesIn(E, p, q)
  }

  /** The facts a depth-first sweep from p establishes about the eligible set
      E' it leaves behind: it only removes cells, every removed cell is
      reachable from p, no removed cell has a neighbour still eligible, and
      p itself is removed when it was eligible. */
  ghost predicate Swept(E: set<Cell>, p: Cell, E': set<Cell>)
  {
    E' <= E &&
    (forall q :: q in E - E' ==> ReachesIn(E, p, q)) &&
    (forall q, r :: q in E - E' && Adjacent(q, r) ==> r !in E') &&
    (p in E ==> p !in E')
  }

  lemma ReachesSelf(E: set<Cell>, p: Cell)
    requires p in E
    ensures ReachesIn(E, p, p)
  {
    assert PathIn(E, [p]);
  }

  lemma ReachesEnds(E: set<Cell>, p: Cell, q: Cell)
    requires ReachesIn(E, p, q)
    ensures p in E && q in E
  {
    var path :| PathIn(E, path) && path[0] == p && path[|path| - 1] == q;
    assert path[0] in E && path[|path| - 1] in E;
  }

  /** A walk can be extended by one adjacent eligible cell at its end. */
  lemma ReachesExtend(E: set<Cell>, p: Cell, q: Cell, r: Cell)
    requires ReachesIn(E, p, q) && r in E && Adjacent(q, r)
    ensures ReachesIn(E, p, r)
  {
    var path :| PathIn(E, path) && path[0] == p && path[|path| - 1] == q;
    var longer := path + [r];
    assert forall i :: 0 <= i < |longer| - 1 ==> longer[i] == path[i];
    assert PathIn(E, longer);
  }

  /** ... or by one adjacent eligible cell at its start. */
  lemma ReachesPrepend(E: set<Cell>, p: Cell, n: Cell, q: Cell)
    requires ReachesIn(E, n, q) && p in E && Adjacent(p, n)
    ensures ReachesIn(E, p, q)
  {
    var path :| PathIn(E, path) && path[0] == n && path[|path| - 1] == q;
    var longer := [p] + path;
    assert forall i :: 1 <= i < |longer| ==> longer[i] == path[i - 1];
    assert PathIn(E, longer);
  }

  /** Reachability is monotone in the eligible set. */
  lemma ReachesWiden(E: set<Cell>, F: set<Cell>, p: Cell, q: Cell)
    requires E <= F && ReachesIn(E, p, q)
    ensures ReachesIn(F, p, q)
  {
    var path :| PathIn(E, path) && path[0] == p && path[|path| - 1] == q;
    assert PathIn(F, path);
  }

  lemma ComponentOfIneligible(E: set<Cell>, p: Cell)
    requires p !in E
    ensures Component(E, p) == {}
  {
    forall q | q in Component(E, p) ensures false {
      ReachesEnds(E, p, q);
    }
  }

  /** Along a walk in E that starts at a removed cell, closure keeps every
      later cell removed too. */
  lemma {:induction false} RemovedAlongPath(E: set<Cell>, E': set<Cell>, path: seq<Cell>, k: nat)
    requires PathIn(E, path) && k < |path|
    requires path[0] !in E'
    requires forall q, r :: q in E - E' && Adjacent(q, r) ==> r !in E'
    ensures path[k] !in E'
  {
    if k > 0 {
      RemovedAlongPath(E, E', path, k - 1);
      assert path[k - 1] in E - E';
      assert Adjacent(path[k - 1], path[k]);
    }
  }

  /** The sweep facts characterise the result exactly: a sweep from p removes
      precisely the component of p. */
  lemma SweptIsComponent(E: set<Cell>, p: Cell, E': set<Cell>)
    ensures Swept(E, p, E') <==> E' == E - Component(E, p)
  {
    var C := Component(E, p);
    if Swept(E, p, E') {
      forall q | q in C ensures q !in E' {
        var path :| PathIn(E, path) && path[0] == p && path[|path| - 1] == q;
        RemovedAlongPath(E, E', path, |path| - 1);
      }
    }
    if E' == E - C {
      forall q, r | q in E - E' && Adjacent(q, r) ensures r !in E' {
        if r in E {
          ReachesExtend(E, p, q, r);
        }
      }
      if p in E {
        ReachesSelf(E, p);
      }
    }
  }

  /** The four neighbours of (fil, col), listed right, down, left, up. */
  lemma Neighbours(fil: int, col: int)
    ensures forall q :: Adjacent((fil, col), q) <==>
              q == (fil, col + 1) || q == (fil + 1, col) || q == (fil, col - 1) || q == (fil - 1, col)
  {
  }

  /** One step of the depth-first sweep: remove p, then sweep from its four
      neighbours n1..n4 in that order, each on what the previous left. The
      result is the same as removing the whole component of p at once. */
  lemma SweepCompose(E0: set<Cell>, p: Cell, n1: Cell, n2: Cell, n3: Cell, n4: Cell,
                     E2: set<Cell>, E3: set<Cell>, E4: set<Cell>, E5: set<Cell>)
    requires p in E0
    requires forall q :: Adjacent(p, q) <==> q == n1 || q == n2 || q == n3 || q == n4
    requires E2 == (E0 - {p}) - Component(E0 - {p}, n1)
    requires E3 == E2 - Component(E2, n2)
    requires E4 == E3 - Component(E3, n3)
    requires E5 == E4 - Component(E4, n4)
    ensures E5 == E0 - Component(E0, p)
  {
    var E1 := E0 - {p};
    SweptIsComponent(E1, n1, E2);
    SweptIsComponent(E2, n2, E3);
    SweptIsComponent(E3, n3, E4);
    SweptIsComponent(E4, n4, E5);
    assert Adjacent(p, n1) && Adjacent(p, n2) && Adjacent(p, n3) && Adjacent(p, n4);
    forall q | q in E0 - E5 ensures ReachesIn(E0, p, q) {
      if q == p {
        ReachesSelf(E0, p);
      } else if q in E1 - E2 {
        ReachesWiden(E1, E0, n1, q);
        ReachesPrepend(E0, p, n1, q);
      } else if q in E2 - E3 {
        ReachesWiden(E2, E0, n2, q);
        ReachesPrepend(E0, p, n2, q);
      } else if q in E3 - E4 {
        ReachesWiden(E3, E0, n3, q);
        ReachesPrepend(E0, p, n3, q);
      } else {
        ReachesWiden(E4, E0, n4, q);
        ReachesPrepend(E0, p, n4, q);
      }
    }
    assert n1 !in E2 && n2 !in E3 && n3 !in E4 && n4 !in E5;
    assert Swept(E0, p, E5);
    SweptIsComponent(E0, p, E5);
  }

  /** Every cell of a walk is reachable from its first cell. */
  lemma {:induction false} PathPrefixReaches(E: set<Cell>, path: seq<Cell>, k: nat)
    requires PathIn(E, path) && k < |path|
    ensures ReachesIn(E, path[0], path[k])
  {
    var prefix := path[..k + 1];
    assert forall i :: 0 <= i < |prefix| ==> prefix[i] == path[i];
    assert PathIn(E, prefix);
  }

  /** A component that fits inside another eligible set F stays connected
      there: it is part of the component of the same start in F. */
  lemma ComponentInto(E: set<Cell>, F: set<Cell>, p: Cell)
    requires Component(E, p) <= F
    ensures Component(E, p) <= Component(F, p)
  {
    forall q | q in Component(E, p) ensures q in Component(F, p) {
      var path :| PathIn(E, path) && path[0] == p && path[|path| - 1] == q;
      forall k | 0 <= k < |path| ensures path[k] in F {
        PathPrefixReaches(E, path, k);
      }
      assert PathIn(F, path);
    }
  }

  lemma SubsetCard<T>(A: set<T>, B: set<T>)
    requires A <= B
    ensures |A| <= |B|
  {
    assert B == A + (B - A);
  }
}
