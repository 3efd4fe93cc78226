/** The intermediate arenas of covering one column: where each pointer leads while the loops run. */
module CoverWalk {
  import opened Links
  import opened Matrices
  import opened Covering

  /** Column c's header is unlinked and the first i rows through it are dropped. */
  ghost function AfterRows(M: Matrix, ns: Arena, alive: set<nat>, c: nat, i: nat): (r: Arena)
    requires i <= |RowsOf(M, alive, c)|
    ensures |r| == |ns|
  {
    DropAll(Unlink(ns, Horizontal, c), Others(M, RowsOf(M, alive, c)[..i]))
  }

  /** ... and the first p other nodes of the next row as well. */
  ghost function AfterNodes(M: Matrix, ns: Arena, alive: set<nat>, c: nat, i: nat, p: nat): (r: Arena)
    requires i < |RowsOf(M, alive, c)|
    requires p <= |M.Beside(RowsOf(M, alive, c)[i])|
    ensures |r| == |ns|
  {
    var r := RowsOf(M, alive, c)[i];
    DropAll(Unlink(ns, Horizontal, c), Others(M, RowsOf(M, alive, c)[..i]) + M.Beside(r)[..p])
  }

  lemma AfterNodesEnds(M: Matrix, ns: Arena, alive: set<nat>, c: nat, i: nat)
    requires i < |RowsOf(M, alive, c)|
    ensures AfterNodes(M, ns, alive, c, i, 0) == AfterRows(M, ns, alive, c, i)
    ensures var r := RowsOf(M, alive, c)[i];
            AfterNodes(M, ns, alive, c, i, |M.Beside(r)|) == AfterRows(M, ns, alive, c, i + 1)
  {
    var rows := RowsOf(M, alive, c);
    var r := rows[i];
    assert rows[..i + 1][..i] == rows[..i];
    assert Others(M, rows[..i]) + M.Beside(r)[..0] == Others(M, rows[..i]);
    assert M.Beside(r)[..|M.Beside(r)|] == M.Beside(r);
  }

  lemma AfterAllRows(M: Matrix, ns: Arena, alive: set<nat>, c: nat)
    ensures AfterRows(M, ns, alive, c, |RowsOf(M, alive, c)|) == Covered(M, ns, alive, c)
    ensures AfterRows(M, ns, alive, c, 0) == Unlink(ns, Horizontal, c)
  {
    var rows := RowsOf(M, alive, c);
    assert rows[..|rows|] == rows;
  }

  lemma OpsPrefix(M: Matrix, rows: seq<nat>, i: nat, p: nat)
    requires i < |rows| && p <= |M.Beside(rows[i])|
    ensures Others(M, rows[..i]) + M.Beside(rows[i])[..p] <= Others(M, rows)
  {
    OthersPrefix(M, rows, i + 1);
    assert rows[..i + 1][..i] == rows[..i];
    var front, back := Others(M, rows[..i]), M.Beside(rows[i]);
    assert Others(M, rows[..i + 1]) == front + back;
    assert front + back[..p] <= front + back;
  }

  /** The column being covered, and every row, can be walked at any moment. */
  lemma PartRep(M: Matrix, ns: Arena, active: set<nat>, alive: set<nat>, c: nat, ops: seq<nat>)
    requires Ready(M, ns, active, alive, c)
    requires ops <= Dropped(M, alive, c)
    ensures var cur := DropAll(Unlink(ns, Horizontal, c), ops);
            && Ring(cur, Vertical, c, RowsOf(M, alive, c))
            && forall r :: r in M.line ==> LineRep(M, cur, r)
  {
    PartlyCovered(M, ns, active, alive, c, ops);
    assert ColumnRep(M, DropAll(Unlink(ns, Horizontal, c), ops), alive - Elems(ops), c);
  }

  lemma RowRing(M: Matrix, ns: Arena, active: set<nat>, alive: set<nat>, c: nat, i: nat)
    requires Ready(M, ns, active, alive, c)
    requires i <= |RowsOf(M, alive, c)|
    ensures Ring(AfterRows(M, ns, alive, c, i), Vertical, c, RowsOf(M, alive, c))
  {
    var rows := RowsOf(M, alive, c);
    OthersPrefix(M, rows, i);
    PartRep(M, ns, active, alive, c, Others(M, rows[..i]));
  }

  lemma NodeRing(M: Matrix, ns: Arena, active: set<nat>, alive: set<nat>, c: nat, i: nat, p: nat)
    requires Ready(M, ns, active, alive, c)
    requires i < |RowsOf(M, alive, c)| && p <= |M.Beside(RowsOf(M, alive, c)[i])|
    ensures var r := RowsOf(M, alive, c)[i];
            var cur := AfterNodes(M, ns, alive, c, i, p);
            Ring(cur, Horizontal, r, M.Beside(r))
  {
    var rows := RowsOf(M, alive, c);
    var r := rows[i];
    assert r in rows;
    RowsOfMembers(M, alive, c);
    OpsPrefix(M, rows, i, p);
    PartRep(M, ns, active, alive, c, Others(M, rows[..i]) + M.Beside(r)[..p]);
    assert LineRep(M, AfterNodes(M, ns, alive, c, i, p), r);
  }

  /** The k-th stop on the way from h along s; the way ends where it began. */
  ghost function Stop(h: nat, s: seq<nat>, k: int): nat {
    if 0 <= k < |s| then s[k] else h
  }

  ghost predicate StopLinks(ns: Arena, a: Axis, h: nat, s: seq<nat>, k: int) {
    && Stop(h, s, k) < |ns| && (0 <= k < |s| ==> s[k] != h)
    && (-1 <= k < |s| ==> ns[Stop(h, s, k)].Next(a) == Stop(h, s, k + 1))
    && (0 <= k <= |s| ==> ns[Stop(h, s, k)].Prev(a) == Stop(h, s, k - 1))
  }

  lemma RingStop(ns: Arena, a: Axis, h: nat, s: seq<nat>, k: int)
    requires Ring(ns, a, h, s) && -1 <= k <= |s|
    ensures StopLinks(ns, a, h, s, k)
  {
    RingSteps(ns, a, h, s);
  }

  lemma RowStop(M: Matrix, ns: Arena, active: set<nat>, alive: set<nat>, c: nat, i: nat, k: int)
    requires Ready(M, ns, active, alive, c)
    requires i <= |RowsOf(M, alive, c)| && -1 <= k <= |RowsOf(M, alive, c)|
    ensures StopLinks(AfterRows(M, ns, alive, c, i), Vertical, c, RowsOf(M, alive, c), k)
  {
    RowRing(M, ns, active, alive, c, i);
    RingStop(AfterRows(M, ns, alive, c, i), Vertical, c, RowsOf(M, alive, c), k);
  }

  lemma NodeStop(M: Matrix, ns: Arena, active: set<nat>, alive: set<nat>, c: nat, i: nat, p: nat, k: int)
    requires Ready(M, ns, active, alive, c)
    requires i < |RowsOf(M, alive, c)| && p <= |M.Beside(RowsOf(M, alive, c)[i])|
    requires -1 <= k <= |M.Beside(RowsOf(M, alive, c)[i])|
    ensures var r := RowsOf(M, alive, c)[i];
            StopLinks(AfterNodes(M, ns, alive, c, i, p), Horizontal, r, M.Beside(r), k)
  {
    var r := RowsOf(M, alive, c)[i];
    NodeRing(M, ns, active, alive, c, i, p);
    RingStop(AfterNodes(M, ns, alive, c, i, p), Horizontal, r, M.Beside(r), k);
  }

  /** One turn of the inner loop: the next node can be dropped, and restoring it undoes the turn. */
  lemma NodeStep(M: Matrix, ns: Arena, active: set<nat>, alive: set<nat>, c: nat, i: nat, p: nat)
    requires Ready(M, ns, active, alive, c)
    requires i < |RowsOf(M, alive, c)| && p < |M.Beside(RowsOf(M, alive, c)[i])|
    ensures var j := M.Beside(RowsOf(M, alive, c)[i])[p];
            var cur, nxt := AfterNodes(M, ns, alive, c, i, p), AfterNodes(M, ns, alive, c, i, p + 1);
            && InArena(cur, Vertical, j) && cur[j].col < |cur| && nxt == Drop(cur, j)
            && InArena(nxt, Vertical, j) && nxt[j].col < |nxt| && Restore(nxt, j) == cur
  {
    hide Ready;
    var rows := RowsOf(M, alive, c);
    var r := rows[i];
    var ops := Others(M, rows[..i]) + M.Beside(r)[..p];
    OpsPrefix(M, rows, i, p + 1);
    assert Others(M, rows[..i]) + M.Beside(r)[..p + 1] == ops + [M.Beside(r)[p]];
    OpStep(M, ns, active, alive, c, ops, M.Beside(r)[p]);
  }

  lemma OpStep(M: Matrix, ns: Arena, active: set<nat>, alive: set<nat>, c: nat, ops: seq<nat>, j: nat)
    requires Ready(M, ns, active, alive, c)
    requires ops + [j] <= Dropped(M, alive, c)
    ensures var cur, nxt := DropAll(Unlink(ns, Horizontal, c), ops), DropAll(Unlink(ns, Horizontal, c), ops + [j]);
            && InArena(cur, Vertical, j) && cur[j].col < |cur| && nxt == Drop(cur, j)
            && InArena(nxt, Vertical, j) && nxt[j].col < |nxt| && Restore(nxt, j) == cur
  {
    assert ops <= ops + [j];
    PartlyCovered(M, ns, active, alive, c, ops);
    StillAlive(M, active, alive, c, ops, j);
    NodeDrop(M, DropAll(Unlink(ns, Horizontal, c), ops), active - {c}, alive - Elems(ops), j);
    DropAllStep(Unlink(ns, Horizontal, c), ops, j);
  }

  lemma StillAlive(M: Matrix, active: set<nat>, alive: set<nat>, c: nat, ops: seq<nat>, j: nat)
    requires M.Valid() && Reduced(M, active, alive) && c in active && c in M.column
    requires ops + [j] <= Dropped(M, alive, c)
    ensures j in M.line && j in alive - Elems(ops)
  {
    DroppedFacts(M, active, alive, c);
    var all := Dropped(M, alive, c);
    var n := |ops|;
    assert (ops + [j])[n] == all[n];
    forall k | 0 <= k < n ensures ops[k] != j {
      assert (ops + [j])[k] == all[k];
    }
  }

  lemma NodeDrop(M: Matrix, cur: Arena, active: set<nat>, alive: set<nat>, j: nat)
    requires M.Typed() && M.Columns() && Rep(M, cur, active, alive) && j in M.line && j in alive
    ensures j < |cur| && InArena(cur, Vertical, j) && cur[j].col < |cur|
    ensures InArena(Drop(cur, j), Vertical, j) && Drop(cur, j)[j].col < |cur| && Restore(Drop(cur, j), j) == cur
  {
    var d := M.col[j];
    assert LineRep(M, cur, j) && ColumnRep(M, cur, alive, d);
    RestoreUndoesDrop(M, cur, alive, j);
    var k := FilterWithout(M.column[d], alive, j);
    RingNeighbours(cur, Vertical, d, Filter(M.column[d], alive), k);
  }

  /** The header's own turn: it can be unlinked, and relinking undoes that. */
  lemma HeaderStep(M: Matrix, ns: Arena, active: set<nat>, alive: set<nat>, c: nat)
    requires Ready(M, ns, active, alive, c)
    ensures InArena(ns, Horizontal, c) && InArena(Unlink(ns, Horizontal, c), Horizontal, c)
    ensures Relink(Unlink(ns, Horizontal, c), Horizontal, c) == ns
  {
    var k := FilterWithout(M.headers, active, c);
    RingNeighbours(ns, Horizontal, 0, Filter(M.headers, active), k);
    RelinkUndoesUnlink(ns, Horizontal, c);
  }
}
