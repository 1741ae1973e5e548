/** Priority queues of candidates: an array heap, with the position of every
    candidate kept so that its priority can be changed in place. */
module CandQueues {
  import opened Basics

  datatype CandPrio = CandPrio(cand: nat, prio: int)

  function Parent(j: nat): nat {
    if j == 0 then 0 else (j - 1) / 2
  }

  /** The priority of a candidate, by its position. */
  function Look(cp: seq<CandPrio>, pos: seq<int>, c: nat): Option<int> {
    if c < |pos| && 0 < pos[c] <= |cp| then Some(cp[pos[c] - 1].prio) else None
  }

  /** Positions are the exact inverse of the array, except at the hole `j`, which is
      to take the candidate `x`. */
  ghost predicate Indexed(cp: seq<CandPrio>, pos: seq<int>, n: nat, j: nat, x: nat) {
    && j < n <= |cp| && x < |pos|
    && (forall i :: 0 <= i < n && i != j ==> cp[i].cand < |pos| && cp[i].cand != x && pos[cp[i].cand] == i + 1)
    && (forall c :: 0 <= c < |pos| && c != x ==> 0 <= pos[c] <= n && pos[c] != j + 1)
    && (forall c :: 0 <= c < |pos| && c != x && pos[c] > 0 ==> cp[pos[c] - 1].cand == c)
  }

  /** Heap order, with a hole at `j`. */
  ghost predicate Ordered(cp: seq<CandPrio>, n: nat, j: nat) {
    && j < n <= |cp|
    && (forall i :: 0 < i < n && i != j && Parent(i) != j ==> cp[Parent(i)].prio >= cp[i].prio)
    && (forall i :: 0 < i < n && Parent(i) == j && j > 0 ==> cp[Parent(j)].prio >= cp[i].prio)
  }

  ghost predicate Holed(cp: seq<CandPrio>, pos: seq<int>, n: nat, j: nat, x: nat) {
    Indexed(cp, pos, n, j, x) && Ordered(cp, n, j)
  }

  ghost predicate FullIndex(cp: seq<CandPrio>, pos: seq<int>, n: nat) {
    && n <= |cp|
    && (forall i :: 0 <= i < n ==> cp[i].cand < |pos| && pos[cp[i].cand] == i + 1)
    && (forall c :: 0 <= c < |pos| ==> 0 <= pos[c] <= n)
    && (forall c :: 0 <= c < |pos| && pos[c] > 0 ==> cp[pos[c] - 1].cand == c)
  }

  ghost predicate FullOrder(cp: seq<CandPrio>, n: nat) {
    n <= |cp| && forall i :: 0 < i < n ==> cp[Parent(i)].prio >= cp[i].prio
  }

  ghost predicate Heap(cp: seq<CandPrio>, pos: seq<int>, n: nat) {
    FullIndex(cp, pos, n) && FullOrder(cp, n)
  }

  lemma ParentBelow()
    ensures forall k :: 0 < k ==> Parent(k) < k
  {
  }

  /** Moving any entry into the hole keeps the index. */
  lemma MoveIndexed(cp: seq<CandPrio>, pos: seq<int>, n: nat, j: nat, x: nat, i: nat)
    requires Indexed(cp, pos, n, j, x) && i < n && i != j
    ensures Indexed(cp[j := cp[i]], pos[cp[i].cand := j + 1], n, i, x)
    ensures SameOthers(cp, pos, cp[j := cp[i]], pos[cp[i].cand := j + 1], x)
  {
    hide SameOthers;
    MoveLooks(cp, pos, n, j, x, i);
  }

  lemma MoveLooks(cp: seq<CandPrio>, pos: seq<int>, n: nat, j: nat, x: nat, i: nat)
    requires Indexed(cp, pos, n, j, x) && i < n && i != j
    ensures SameOthers(cp, pos, cp[j := cp[i]], pos[cp[i].cand := j + 1], x)
  {
    var cp', pos' := cp[j := cp[i]], pos[cp[i].cand := j + 1];
    forall c: nat | c < |pos| && c != x ensures Look(cp', pos', c) == Look(cp, pos, c) {
      if c != cp[i].cand && pos[c] > 0 {
        assert pos[c] != j + 1;
      }
    }
  }

  ghost predicate SameOthers(cp: seq<CandPrio>, pos: seq<int>, cp': seq<CandPrio>, pos': seq<int>, x: nat) {
    |pos'| == |pos| && forall c: nat :: c < |pos| && c != x ==> Look(cp', pos', c) == Look(cp, pos, c)
  }

  lemma UpOrdered(cp: seq<CandPrio>, n: nat, j: nat)
    requires Ordered(cp, n, j) && j > 0
    ensures var i := Parent(j); Ordered(cp[j := cp[i]], n, i)
  {
    ParentBelow();
    hide Parent;
    var i := Parent(j);
    var cp' := cp[j := cp[i]];
    forall k | 0 < k < n && k != i && Parent(k) != i ensures cp'[Parent(k)].prio >= cp'[k].prio {
      if Parent(k) == j {
        assert cp[i].prio >= cp[k].prio;
      }
    }
  }

  /** All entries below `j` have at most this priority. */
  ghost predicate ChildrenBelow(cp: seq<CandPrio>, n: nat, j: nat, prio: int) {
    n <= |cp| && forall k :: 0 < k < n && Parent(k) == j ==> cp[k].prio <= prio
  }

  lemma DownOrdered(cp: seq<CandPrio>, n: nat, j: nat, i: nat)
    requires Ordered(cp, n, j) && 0 < i < n && Parent(i) == j && ChildrenBelow(cp, n, j, cp[i].prio)
    ensures Ordered(cp[j := cp[i]], n, i)
  {
    ParentBelow();
    hide Parent;
  }

  lemma FillIndex(cp: seq<CandPrio>, pos: seq<int>, n: nat, j: nat, e: CandPrio)
    requires Indexed(cp, pos, n, j, e.cand)
    ensures FullIndex(cp[j := e], pos[e.cand := j + 1], n)
    ensures SameOthers(cp, pos, cp[j := e], pos[e.cand := j + 1], e.cand)
    ensures Look(cp[j := e], pos[e.cand := j + 1], e.cand) == Some(e.prio)
  {
    var cp', pos' := cp[j := e], pos[e.cand := j + 1];
    forall i | 0 <= i < n ensures cp'[i].cand < |pos'| && pos'[cp'[i].cand] == i + 1 {
    }
    forall c: nat | c < |pos| && c != e.cand ensures Look(cp', pos', c) == Look(cp, pos, c) {
      assert pos'[c] == pos[c] != j + 1;
    }
  }

  lemma FillOrder(cp: seq<CandPrio>, n: nat, j: nat, e: CandPrio)
    requires Ordered(cp, n, j) && ChildrenBelow(cp, n, j, e.prio)
    requires j > 0 ==> cp[Parent(j)].prio >= e.prio
    ensures FullOrder(cp[j := e], n)
  {
    ParentBelow();
    hide Parent;
  }

  lemma {:induction false} RootIsMax(cp: seq<CandPrio>, pos: seq<int>, n: nat, i: nat)
    requires Heap(cp, pos, n) && i < n
    ensures cp[0].prio >= cp[i].prio
  {
    if i > 0 {
      RootIsMax(cp, pos, n, Parent(i));
    }
  }

  lemma SameTrans(cp: seq<CandPrio>, pos: seq<int>, cp1: seq<CandPrio>, pos1: seq<int>, cp2: seq<CandPrio>,
                  pos2: seq<int>, x: nat)
    requires SameOthers(cp, pos, cp1, pos1, x) && SameOthers(cp1, pos1, cp2, pos2, x)
    ensures SameOthers(cp, pos, cp2, pos2, x)
  {
  }

  class CandQueue {
    var cp: array<CandPrio>
    var n: nat
    const pos: array<int>

    ghost predicate Valid()
      reads this, cp, pos
    {
      Heap(cp[..], pos[..], n)
    }

    /** The queue as a map from candidates to priorities. */
    ghost function Contents(): map<nat, int>
      requires Valid()
      reads this, cp, pos
    {
      MapOf(cp[..], pos[..])
    }

    constructor (limit: nat)
      ensures Valid() && Contents() == map[] && pos.Length == limit && fresh(cp) && fresh(pos)
    {
      cp := new CandPrio[0];
      n := 0;
      pos := new int[limit](_ => 0);
    }

    /** Move the hole up past entries of lower priority. */
    method SiftUp(j0: nat, e: CandPrio) returns (j: nat)
      requires j0 < n <= cp.Length && e.cand < pos.Length && Holed(cp[..], pos[..], n, j0, e.cand)
      modifies cp, pos
      ensures j < n && Holed(cp[..], pos[..], n, j, e.cand)
      ensures SameOthers(old(cp[..]), old(pos[..]), cp[..], pos[..], e.cand)
      ensures j > 0 ==> cp[Parent(j)].prio >= e.prio
    {
      hide SameOthers, Ordered, Indexed, Parent;
      j := j0;
      ParentBelow();
      SameRefl(cp[..], pos[..], e.cand);
      while true
        invariant j < n <= cp.Length && Holed(cp[..], pos[..], n, j, e.cand)
        invariant SameOthers(old(cp[..]), old(pos[..]), cp[..], pos[..], e.cand)
        decreases j
      {
        var i := Parent(j);
        if j == 0 || cp[i].prio >= e.prio {
          break;
        }
        UpOrdered(cp[..], n, j);
        ghost var cp1, pos1 := cp[..], pos[..];
        Fall(j, i, e.cand);
        SameTrans(old(cp[..]), old(pos[..]), cp1, pos1, cp[..], pos[..], e.cand);
        j := i;
      }
    }

    /** Move the hole down past entries of higher priority. */
    method SiftDown(j0: nat, e: CandPrio) returns (j: nat)
      requires j0 < n <= cp.Length && e.cand < pos.Length && Holed(cp[..], pos[..], n, j0, e.cand)
      requires j0 > 0 ==> cp[Parent(j0)].prio >= e.prio
      modifies cp, pos
      ensures j < n && Holed(cp[..], pos[..], n, j, e.cand)
      ensures SameOthers(old(cp[..]), old(pos[..]), cp[..], pos[..], e.cand)
      ensures ChildrenBelow(cp[..], n, j, e.prio) && (j > 0 ==> cp[Parent(j)].prio >= e.prio)
    {
      hide SameOthers, Ordered, Indexed;
      j := j0;
      SameRefl(cp[..], pos[..], e.cand);
      while true
        invariant j < n <= cp.Length && Holed(cp[..], pos[..], n, j, e.cand)
        invariant SameOthers(old(cp[..]), old(pos[..]), cp[..], pos[..], e.cand)
        invariant j > 0 ==> cp[Parent(j)].prio >= e.prio
        decreases n - j
      {
        var i := 2 * j + 1;
        if i + 1 < n && cp[i + 1].prio > cp[i].prio {
          i := i + 1;
        }
        if i >= n || e.prio >= cp[i].prio {
          break;
        }
        DownOrdered(cp[..], n, j, i);
        ghost var cp1, pos1 := cp[..], pos[..];
        Fall(j, i, e.cand);
        SameTrans(old(cp[..]), old(pos[..]), cp1, pos1, cp[..], pos[..], e.cand);
        j := i;
      }
    }

    /** Copy the entry at `i` into the hole. */
    method Fall(j: nat, i: nat, ghost x: nat)
      requires j < n && i < n <= cp.Length && i != j && x < pos.Length && Indexed(cp[..], pos[..], n, j, x)
      requires Ordered(cp[..][j := cp[i]], n, i)
      modifies cp, pos
      ensures cp[..] == old(cp[..])[j := old(cp[i])] && Holed(cp[..], pos[..], n, i, x)
      ensures SameOthers(old(cp[..]), old(pos[..]), cp[..], pos[..], x)
    {
      hide SameOthers, Ordered, Parent, Indexed;
      EntryIn(cp[..], pos[..], n, j, x, i);
      MoveIndexed(cp[..], pos[..], n, j, x, i);
      cp[j] := cp[i];
      pos[cp[j].cand] := j + 1;
      assert cp[..] == old(cp[..])[j := old(cp[i])];
      assert pos[..] == old(pos[..])[old(cp[i]).cand := j + 1];
    }

    /** Put `e` where it belongs, starting from the hole `j0`. */
    method Reheap(j0: nat, e: CandPrio)
      requires j0 < n <= cp.Length && e.cand < pos.Length && Holed(cp[..], pos[..], n, j0, e.cand)
      modifies cp, pos
      ensures Heap(cp[..], pos[..], n)
      ensures SameOthers(old(cp[..]), old(pos[..]), cp[..], pos[..], e.cand)
      ensures Look(cp[..], pos[..], e.cand) == Some(e.prio)
    {
      hide SameOthers, Ordered, Indexed, FullIndex, FullOrder, Look;
      var j := SiftUp(j0, e);
      ghost var cp1, pos1 := cp[..], pos[..];
      j := SiftDown(j, e);
      ghost var cp2, pos2 := cp[..], pos[..];
      FillIndex(cp2, pos2, n, j, e);
      FillOrder(cp2, n, j, e);
      cp[j] := e;
      pos[cp[j].cand] := j + 1;
      assert cp[..] == cp2[j := e] && pos[..] == pos2[e.cand := j + 1];
      SameTrans(old(cp[..]), old(pos[..]), cp1, pos1, cp2, pos2, e.cand);
      SameTrans(old(cp[..]), old(pos[..]), cp2, pos2, cp[..], pos[..], e.cand);
    }
  
    /** Make room for `size` entries. */
    method Grow(size: nat)
      modifies this`cp
      ensures size <= cp.Length && old(cp.Length) <= cp.Length && cp[..old(cp.Length)] == old(cp[..])
      ensures cp == old(cp) || fresh(cp)
    {
      if cp.Length < size {
        var bigger := new CandPrio[2 * size](_ => CandPrio(0, 0));
        for i := 0 to cp.Length
          invariant cp == old(cp) && i <= cp.Length && cp[..] == old(cp[..]) && bigger[..i] == cp[..i]
        {
          bigger[i] := cp[i];
        }
        cp := bigger;
      }
    }

    /** Set the priority of a candidate, and add it if need be. */
    method Set(c: nat, prio: int)
      requires Valid() && c < pos.Length
      modifies this, cp, pos
      ensures Valid() && Contents() == old(Contents())[c := prio] && (cp == old(cp) || fresh(cp))
    {
      hide FullIndex, FullOrder, Ordered, Indexed;
      ghost var cp0, pos0, n0 := cp[..], pos[..], n;
      PositionOf(cp0, pos0, n0, c);
      var j := pos[c];
      if j == 0 {
        n := n + 1;
        j := n;
        Grow(n);
        assert n0 <= |cp0| <= cp.Length;
        NewHole(cp0, pos0, n0, cp[..], c);
      } else {
        OldHole(cp0, pos0, n0, c);
      }
      ghost var cp1 := cp[..];
      Reheap(j - 1, CandPrio(c, prio));
      ContentsSet(cp0, pos0, n0, cp1, cp[..], pos[..], n, c, prio);
    }

    /** Raise the priority of a candidate to at least `prio`. */
    method SetMax(c: nat, prio: int) returns (result: int)
      requires Valid() && c < pos.Length
      modifies this, cp, pos
      ensures Valid() && c in Contents() && result == Contents()[c]
      ensures result == if c in old(Contents()) && old(Contents())[c] >= prio then old(Contents())[c] else prio
      ensures Contents() == old(Contents())[c := result]
    {
      var j := pos[c];
      var oldPrio := if j > 0 then cp[j - 1].prio else 0;
      if j == 0 || oldPrio < prio {
        Set(c, prio);
        return prio;
      } else {
        return oldPrio;
      }
    }

    method Get(c: nat) returns (prio: int)
      requires Valid() && c < pos.Length
      ensures prio == if c in Contents() then Contents()[c] else 0
    {
      var j := pos[c];
      return if j == 0 then 0 else cp[j - 1].prio;
    }

    /** The entry at the root: one of highest priority. */
    method Peek() returns (top: Option<CandPrio>)
      requires Valid()
      ensures if Contents() == map[] then top == None else top.Some? && IsMax(Contents(), top.value)
      ensures if n > 0 then cp.Length > 0 && top == Some(cp[0]) else top == None
    {
      if n > 0 {
        assert pos[cp[0].cand] == 1;
        assert cp[0].cand in Contents();
        forall c | c in Contents() ensures Contents()[c] <= cp[0].prio {
          RootIsMax(cp[..], pos[..], n, pos[c] - 1);
        }
        return Some(cp[0]);
      }
      return None;
    }

    /** Remove an entry of highest priority. */
    method Pop() returns (top: Option<CandPrio>)
      requires Valid()
      modifies this, cp, pos
      ensures Valid() && cp == old(cp)
      ensures if old(Contents()) == map[] then top == None && Contents() == map[]
        else top.Some? && IsMax(old(Contents()), top.value) && Contents() == old(Contents()) - {top.value.cand}
    {
      top := Peek();
      if top.Some? {
        hide FullIndex, FullOrder, Ordered, Indexed;
        ghost var cp0, pos0, n0 := cp[..], pos[..], n;
        RootIn(cp0, pos0, n0);
        n := n - 1;
        pos[cp[0].cand] := 0;
        if n > 0 {
          RootHole(cp0, pos0, n0);
          ghost var pos1 := pos[..];
          assert pos1 == pos0[cp0[0].cand := 0];
          Reheap(0, cp[n]);
          ContentsPopped(cp0, pos0, n0, cp[..], pos[..], n);
        } else {
          LastPopped(cp0, pos0, n0);
        }
      }
    }

    /** Pop until the queue is empty: every entry comes once, and priorities never increase. */
    method Drain() returns (out: seq<CandPrio>)
      requires Valid()
      modifies this, cp, pos
      ensures Valid() && cp == old(cp) && Contents() == map[] && Drained(old(Contents()), out)
      ensures forall c, prio :: (c in old(Contents()) && old(Contents())[c] == prio) <==> CandPrio(c, prio) in out
      ensures forall i, j :: 0 <= i < j < |out| ==> out[i].cand != out[j].cand && out[i].prio >= out[j].prio
      decreases |Contents()|
    {
      hide Heap, MapOf;
      ghost var was := Contents();
      var top := Pop();
      if top.None? {
        out := [];
      } else {
        assert Contents().Keys == was.Keys - {top.value.cand};
        var rest := Drain();
        out := [top.value] + rest;
        assert out[1..] == rest;
      }
      DrainedInOrder(was, out);
    }
  }

  ghost predicate IsMax(contents: map<nat, int>, e: CandPrio) {
    e.cand in contents && contents[e.cand] == e.prio && forall c :: c in contents ==> contents[c] <= e.prio
  }

  /** The map that an array and its positions stand for. */
  ghost function MapOf(cp: seq<CandPrio>, pos: seq<int>): map<nat, int>
    requires forall c :: 0 <= c < |pos| ==> 0 <= pos[c] <= |cp|
  {
    map c: nat {:trigger pos[c]} | c < |pos| && pos[c] > 0 :: cp[pos[c] - 1].prio
  }

  lemma PositionOf(cp: seq<CandPrio>, pos: seq<int>, n: nat, c: nat)
    requires Heap(cp, pos, n) && c < |pos|
    ensures 0 <= pos[c] <= n <= |cp|
  {
  }

  lemma RootIn(cp: seq<CandPrio>, pos: seq<int>, n: nat)
    requires Heap(cp, pos, n) && n > 0
    ensures n <= |cp| && cp[0].cand < |pos| && cp[n - 1].cand < |pos|
  {
  }

  /** A slot behind the end is a hole for a candidate that is not there. */
  lemma NewHole(cp: seq<CandPrio>, pos: seq<int>, n: nat, cp': seq<CandPrio>, c: nat)
    requires Heap(cp, pos, n) && c < |pos| && pos[c] == 0 && n < |cp'| && |cp| <= |cp'| && cp'[..|cp|] == cp
    ensures Holed(cp', pos, n + 1, n, c)
  {
    ParentBelow();
    hide Parent;
    assert forall i :: 0 <= i < n ==> cp'[i] == cp[i];
  }

  /** The slot of a candidate is a hole for it. */
  lemma OldHole(cp: seq<CandPrio>, pos: seq<int>, n: nat, c: nat)
    requires Heap(cp, pos, n) && c < |pos| && pos[c] > 0
    ensures Holed(cp, pos, n, pos[c] - 1, c)
  {
    OldHoleIndexed(cp, pos, n, c);
    OrderedAnywhere(cp, n, pos[c] - 1);
  }

  lemma OldHoleIndexed(cp: seq<CandPrio>, pos: seq<int>, n: nat, c: nat)
    requires FullIndex(cp, pos, n) && c < |pos| && pos[c] > 0
    ensures Indexed(cp, pos, n, pos[c] - 1, c)
  {
  }

  lemma OrderedAnywhere(cp: seq<CandPrio>, n: nat, j: nat)
    requires FullOrder(cp, n) && j < n
    ensures Ordered(cp, n, j)
  {
    ParentBelow();
    hide Parent;
  }

  /** Without its root, a heap has a hole there for its last entry. */
  lemma RootHole(cp: seq<CandPrio>, pos: seq<int>, n: nat)
    requires Heap(cp, pos, n) && n > 1
    ensures cp[0].cand < |pos| && Holed(cp, pos[cp[0].cand := 0], n - 1, 0, cp[n - 1].cand)
  {
    ParentBelow();
    hide Parent;
  }

  lemma MapLook(cp: seq<CandPrio>, pos: seq<int>, n: nat)
    requires Heap(cp, pos, n)
    ensures forall d: nat :: d in MapOf(cp, pos) <==> Look(cp, pos, d).Some?
    ensures forall d: nat :: d in MapOf(cp, pos) ==> d < |pos| && MapOf(cp, pos)[d] == Look(cp, pos, d).value
  {
  }

  lemma ContentsSet(cp0: seq<CandPrio>, pos0: seq<int>, n0: nat, cp1: seq<CandPrio>, cp2: seq<CandPrio>,
                    pos2: seq<int>, n2: nat,
                    c: nat, prio: int)
    requires Heap(cp0, pos0, n0) && Heap(cp2, pos2, n2) && |cp0| <= |cp1| && cp1[..|cp0|] == cp0 && c < |pos0|
    requires SameOthers(cp1, pos0, cp2, pos2, c) && Look(cp2, pos2, c) == Some(prio)
    ensures MapOf(cp2, pos2) == MapOf(cp0, pos0)[c := prio]
  {
    forall d: nat | d < |pos0| && d != c ensures Look(cp2, pos2, d) == Look(cp0, pos0, d) {
      assert Look(cp2, pos2, d) == Look(cp1, pos0, d);
      assert pos0[d] > 0 ==> cp1[pos0[d] - 1] == cp0[pos0[d] - 1];
    }
    MapLook(cp0, pos0, n0);
    MapLook(cp2, pos2, n2);
    hide MapOf, Look;
    assert MapOf(cp2, pos2).Keys == MapOf(cp0, pos0)[c := prio].Keys;
  }

  lemma ContentsPopped(cp0: seq<CandPrio>, pos0: seq<int>, n0: nat, cp2: seq<CandPrio>, pos2: seq<int>, n2: nat)
    requires Heap(cp0, pos0, n0) && n0 > 1 && Heap(cp2, pos2, n2)
    requires SameOthers(cp0, pos0[cp0[0].cand := 0], cp2, pos2, cp0[n0 - 1].cand)
    requires Look(cp2, pos2, cp0[n0 - 1].cand) == Some(cp0[n0 - 1].prio)
    ensures MapOf(cp2, pos2) == MapOf(cp0, pos0) - {cp0[0].cand}
  {
    var r, x := cp0[0].cand, cp0[n0 - 1].cand;
    assert pos0[r] == 1 && pos0[x] == n0;
    forall d: nat | d < |pos0| ensures Look(cp2, pos2, d) == if d == r then None else Look(cp0, pos0, d) {
      if d != x {
        assert Look(cp2, pos2, d) == Look(cp0, pos0[r := 0], d);
      }
    }
    MapLook(cp0, pos0, n0);
    MapLook(cp2, pos2, n2);
    hide MapOf, Look;
    assert MapOf(cp2, pos2).Keys == MapOf(cp0, pos0).Keys - {r};
  }

  lemma LastPopped(cp: seq<CandPrio>, pos: seq<int>, n: nat)
    requires Heap(cp, pos, n) && n == 1
    ensures Heap(cp, pos[cp[0].cand := 0], 0)
    ensures MapOf(cp, pos[cp[0].cand := 0]) == MapOf(cp, pos) - {cp[0].cand}
  {
  }

  lemma EntryIn(cp: seq<CandPrio>, pos: seq<int>, n: nat, j: nat, x: nat, i: nat)
    requires Indexed(cp, pos, n, j, x) && i < n && i != j
    ensures cp[i].cand < |pos|
  {
  }

  lemma SameRefl(cp: seq<CandPrio>, pos: seq<int>, x: nat)
    ensures SameOthers(cp, pos, cp, pos, x)
  {
  }

  /** What popping gives until the queue is empty. */
  ghost predicate Drained(contents: map<nat, int>, out: seq<CandPrio>)
    decreases |out|
  {
    if out == [] then contents == map[]
    else IsMax(contents, out[0]) && Drained(contents - {out[0].cand}, out[1..])
  }

  /** Draining a queue gives every entry once, and priorities never increase. */
  lemma {:induction false} DrainedInOrder(contents: map<nat, int>, out: seq<CandPrio>)
    requires Drained(contents, out)
    ensures forall c, prio :: (c in contents && contents[c] == prio) <==> CandPrio(c, prio) in out
    ensures forall i, j :: 0 <= i < j < |out| ==> out[i].cand != out[j].cand && out[i].prio >= out[j].prio
    decreases |out|
  {
    if out != [] {
      var rest := contents - {out[0].cand};
      DrainedInOrder(rest, out[1..]);
      assert out == [out[0]] + out[1..];
      forall j | 0 < j < |out|
        ensures out[0].cand != out[j].cand && out[0].prio >= out[j].prio
      {
        assert CandPrio(out[j].cand, out[j].prio) == out[1..][j - 1];
        assert out[j].cand in rest && rest[out[j].cand] == out[j].prio;
      }
      assert forall i :: 0 < i < |out| ==> out[i] == out[1..][i - 1];
    }
  }
}
