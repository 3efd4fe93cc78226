/** Four-way linked nodes kept in one arena, and the circular lists ("rings") threaded through them.

    A node is addressed by its index in the arena. Columns and rows of the exact-cover matrix use the
    same link surgery on two axes, so every fact below is stated once, for an arbitrary axis. */
module Links {

  datatype Axis = Horizontal | Vertical

  datatype Node = Node(left: nat, right: nat, up: nat, down: nat, col: nat, name: int, size: int) {
    function Next(a: Axis): nat { if a.Horizontal? then right else down }

    function Prev(a: Axis): nat { if a.Horizontal? then left else up }

    function SetNext(a: Axis, x: nat): Node {
      if a.Horizontal? then this.(right := x) else this.(down := x)
    }

    function SetPrev(a: Axis, x: nat): Node {
      if a.Horizontal? then this.(left := x) else this.(up := x)
    }
  }

  type Arena = seq<Node>

  // ---------- rings ----------

  ghost predicate Distinct(s: seq<nat>) {
    forall i, j :: 0 <= i < j < |s| ==> s[i] != s[j]
  }

  /** x and y are neighbours: each one's link names the other. */
  ghost predicate Linked(ns: Arena, a: Axis, x: nat, y: nat) {
    x < |ns| && y < |ns| && ns[x].Next(a) == y && ns[y].Prev(a) == x
  }

  /** The list h, s[0], s[1], ..., h closes into a circle of distinct nodes. */
  ghost predicate Ring(ns: Arena, a: Axis, h: nat, s: seq<nat>) {
    && Distinct([h] + s)
    && Chain(ns, a, [h] + s + [h])
  }

  ghost predicate Chain(ns: Arena, a: Axis, c: seq<nat>) {
    forall i, j :: 0 <= i < j < |c| && j == i + 1 ==> Linked(ns, a, c[i], c[j])
  }

  // ---------- link surgery ----------

  /** x and its neighbours along a are nodes of the arena. */
  ghost predicate InArena(ns: Arena, a: Axis, x: nat) {
    x < |ns| && ns[x].Next(a) < |ns| && ns[x].Prev(a) < |ns|
  }

  /** Takes x out of its ring; x keeps its own links. */
  ghost function Unlink(ns: Arena, a: Axis, x: nat): (r: Arena)
    ensures |r| == |ns|
  {
    if !InArena(ns, a, x) then ns else
    var after, before := ns[x].Next(a), ns[x].Prev(a);
    var ms := ns[after := ns[after].SetPrev(a, before)];
    ms[before := ms[before].SetNext(a, after)]
  }

  /** Puts x back between the two nodes its own links still name. */
  ghost function Relink(ns: Arena, a: Axis, x: nat): (r: Arena)
    ensures |r| == |ns|
  {
    if !InArena(ns, a, x) then ns else
    var after := ns[x].Next(a);
    var ms := ns[after := ns[after].SetPrev(a, x)];
    var before := ms[x].Prev(a);
    ms[before := ms[before].SetNext(a, x)]
  }

  /** Inserts x just before h. */
  ghost function InsertBefore(ns: Arena, a: Axis, h: nat, x: nat): (r: Arena)
    ensures |r| == |ns|
  {
    if !(InArena(ns, a, h) && x < |ns|) then ns else
    var before := ns[h].Prev(a);
    var ms := ns[x := ns[x].SetPrev(a, before).SetNext(a, h)];
    var ks := ms[before := ms[before].SetNext(a, x)];
    ks[h := ks[h].SetPrev(a, x)]
  }

  // ---------- what surgery does to rings ----------

  /** The dancing step: relinking a node that was properly linked undoes its unlinking, field by field. */
  lemma RelinkUndoesUnlink(ns: Arena, a: Axis, x: nat)
    requires InArena(ns, a, x)
    requires Linked(ns, a, x, ns[x].Next(a)) && Linked(ns, a, ns[x].Prev(a), x)
    requires ns[x].Next(a) != x
    ensures var r := Unlink(ns, a, x);
            r[x].Next(a) == ns[x].Next(a) && r[x].Prev(a) == ns[x].Prev(a) && Relink(r, a, x) == ns
  {
  }

  /** Around the loop h, s, h no two positions coincide, except the two ends. */
  lemma LoopDistinct(h: nat, s: seq<nat>)
    requires Distinct([h] + s)
    ensures var c := [h] + s + [h];
            forall i, j :: 0 <= i < j < |c| && (0 < i || j < |c| - 1) ==> c[i] != c[j]
  {
    var c := [h] + s + [h];
    forall i, j | 0 <= i < j < |c| && (0 < i || j < |c| - 1)
      ensures c[i] != c[j]
    {
      assert c[i] == ([h] + s)[i];
      if j < |c| - 1 {
        assert c[j] == ([h] + s)[j];
      } else {
        assert c[j] == ([h] + s)[0];
      }
    }
  }

  lemma RingNeighbours(ns: Arena, a: Axis, h: nat, s: seq<nat>, k: nat)
    requires Ring(ns, a, h, s) && k < |s|
    ensures var c := [h] + s + [h];
            && c[k + 1] == s[k] && c[k] != s[k] && c[k + 2] != s[k]
            && Linked(ns, a, s[k], c[k + 2]) && Linked(ns, a, c[k], s[k])
  {
    LoopDistinct(h, s);
    var c := [h] + s + [h];
    assert c[k + 1] == s[k];
    assert Linked(ns, a, c[k], c[k + 1]) && Linked(ns, a, c[k + 1], c[k + 2]);
  }

  ghost function Without(s: seq<nat>, k: nat): seq<nat>
    requires k < |s|
  {
    s[..k] + s[k + 1..]
  }

  /** Unlinking the k-th member leaves the ring of the others. */
  lemma UnlinkRing(ns: Arena, a: Axis, h: nat, s: seq<nat>, k: nat)
    requires Ring(ns, a, h, s) && k < |s|
    ensures InArena(ns, a, s[k])
    ensures Ring(Unlink(ns, a, s[k]), a, h, Without(s, k))
  {
    RingNeighbours(ns, a, h, s, k);
    LoopDistinct(h, s);
    var r := Unlink(ns, a, s[k]);
    var t := Without(s, k);
    var c, d := [h] + s + [h], [h] + t + [h];
    assert forall i :: 0 <= i <= k ==> d[i] == c[i];
    assert forall i :: k < i < |d| ==> d[i] == c[i + 1];
    assert forall i :: 0 <= i < |[h] + t| ==> ([h] + t)[i] == d[i];
    forall i, j | 0 <= i < j < |d| && j == i + 1
      ensures Linked(r, a, d[i], d[j])
    {
      if i < k {
        assert Linked(ns, a, c[i], c[j]);
      } else if i == k {
        assert d[j] == c[k + 2];
      } else {
        assert Linked(ns, a, c[i + 1], c[j + 1]);
      }
    }
  }

  /** A ring survives any change that keeps its own members' links. */
  lemma RingFrame(ns: Arena, ms: Arena, a: Axis, h: nat, s: seq<nat>)
    requires Ring(ns, a, h, s) && |ms| == |ns|
    requires forall x :: x in [h] + s && x < |ns| ==> ms[x].Next(a) == ns[x].Next(a) && ms[x].Prev(a) == ns[x].Prev(a)
    ensures Ring(ms, a, h, s)
  {
    var c := [h] + s + [h];
    assert forall i :: 0 <= i < |c| ==> c[i] in [h] + s;
    forall i, j | 0 <= i < j < |c| && j == i + 1
      ensures Linked(ms, a, c[i], c[j])
    {
      assert Linked(ns, a, c[i], c[j]);
    }
  }

  lemma RingBounds(ns: Arena, a: Axis, h: nat, s: seq<nat>)
    requires Ring(ns, a, h, s)
    ensures h < |ns| && forall k :: 0 <= k < |s| ==> s[k] < |ns|
  {
    var c := [h] + s + [h];
    assert Linked(ns, a, c[0], c[1]);
    forall k | 0 <= k < |s| ensures s[k] < |ns| {
      assert c[k + 1] == s[k];
      assert Linked(ns, a, c[k], c[k + 1]);
    }
  }

  /** Where the links of a ring lead, one step at a time, in both directions. */
  lemma RingSteps(ns: Arena, a: Axis, h: nat, s: seq<nat>)
    requires Ring(ns, a, h, s)
    ensures h < |ns| && ns[h].Next(a) == (s + [h])[0] && ns[h].Prev(a) == ([h] + s)[|s|]
    ensures forall k :: 0 <= k < |s| ==>
              s[k] < |ns| && s[k] != h && ns[s[k]].Next(a) == (s + [h])[k + 1] && ns[s[k]].Prev(a) == ([h] + s)[k]
  {
    RingBounds(ns, a, h, s);
    var c := [h] + s + [h];
    assert Linked(ns, a, c[0], c[1]) && Linked(ns, a, c[|s|], c[|s| + 1]);
    forall k | 0 <= k < |s|
      ensures s[k] != h && ns[s[k]].Next(a) == (s + [h])[k + 1] && ns[s[k]].Prev(a) == ([h] + s)[k]
    {
      RingNeighbours(ns, a, h, s, k);
      LoopDistinct(h, s);
      assert c[0] == h && c[k + 1] == s[k];
    }
  }

  /** A ring may be entered at any of its members. */
  lemma RotateRing(ns: Arena, a: Axis, h: nat, s: seq<nat>)
    requires Ring(ns, a, h, s) && |s| > 0
    ensures Ring(ns, a, s[0], s[1..] + [h])
  {
    var c, d := [h] + s + [h], [s[0]] + (s[1..] + [h]) + [s[0]];
    LoopDistinct(h, s);
    assert forall i :: 0 <= i <= |s| ==> d[i] == c[i + 1];
    assert d[|s| + 1] == c[1];
    assert forall i :: 0 <= i <= |s| ==> ([s[0]] + (s[1..] + [h]))[i] == d[i];
    forall i, j | 0 <= i < j < |d| && j == i + 1 ensures Linked(ns, a, d[i], d[j]) {
      if i < |s| {
        assert Linked(ns, a, c[i + 1], c[j + 1]);
      } else {
        assert Linked(ns, a, c[0], c[1]);
      }
    }
  }

  /** Inserting a newcomer before the head appends it to the ring. */
  lemma InsertRing(ns: Arena, a: Axis, h: nat, s: seq<nat>, x: nat)
    requires Ring(ns, a, h, s) && x < |ns| && x != h && x !in s
    ensures InArena(ns, a, h)
    ensures Ring(InsertBefore(ns, a, h, x), a, h, s + [x])
  {
    var c := [h] + s + [h];
    LoopDistinct(h, s);
    assert Linked(ns, a, c[|s|], c[|s| + 1]) && Linked(ns, a, c[0], c[1]);
    var r := InsertBefore(ns, a, h, x);
    var d := [h] + (s + [x]) + [h];
    assert forall i :: 0 <= i <= |s| ==> d[i] == c[i];
    assert d[|s| + 1] == x && d[|s| + 2] == h;
    assert [h] + (s + [x]) == [h] + s + [x];
    forall i, j | 0 <= i < j < |d| && j == i + 1
      ensures Linked(r, a, d[i], d[j])
    {
      if i < |s| {
        assert Linked(ns, a, c[i], c[j]);
      }
    }
  }
}
