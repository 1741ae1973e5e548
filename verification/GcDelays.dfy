/** How many references to tables the first phase of a collection meets. */
module GcDelays {
  import opened Basics
  import opened Graphs
  import opened GcStores
  import opened GcStates

  /** The value leads to a table, which has to wait for the last phase. */
  predicate Waits(from: seq<Obj>, v: Val) {
    v.Old? && v.i < |from| && IsTable(from[v.i])
  }

  function FieldWait(from: seq<Obj>, o: Obj, k: nat): nat
    requires o.Record? && k < |o.fields|
  {
    if Followed(o, k) && Waits(from, o.fields[k]) then 1 else 0
  }

  /** Among the first `n` fields, those that are followed and lead to tables. */
  function FieldWaits(from: seq<Obj>, o: Obj, n: nat): nat
    requires o.Record? && n <= |o.fields|
  {
    if n == 0 then 0
    else FieldWaits(from, o, n - 1) + FieldWait(from, o, n - 1)
  }

  function ObjWaits(from: seq<Obj>, o: Obj): nat {
    if o.Record? then FieldWaits(from, o, |o.fields|) else 0
  }

  predicate SrcInside(from: seq<Obj>, src: seq<nat>) {
    forall j :: 0 <= j < |src| ==> src[j] < |from|
  }

  function RootWaits(from: seq<Obj>, root: Val): nat {
    if Waits(from, root) then 1 else 0
  }

  /** The references of some objects, those that were copied. */
  function SrcWaits(from: seq<Obj>, src: seq<nat>): nat
    requires SrcInside(from, src)
  {
    if src == [] then 0 else SrcWaits(from, src[..|src| - 1]) + ObjWaits(from, from[src[|src| - 1]])
  }

  /** The references of the members of a set among the first `n` objects. */
  ghost function SetWaits(from: seq<Obj>, live: set<nat>, n: nat): nat
    requires n <= |from|
  {
    if n == 0 then 0 else SetWaits(from, live, n - 1) + if n - 1 in live then ObjWaits(from, from[n - 1]) else 0
  }

  /** The references to tables from the root and from all that is alive. */
  ghost function TableRefs(from: seq<Obj>, root: Val): nat {
    RootWaits(from, root) + SetWaits(from, ReachableSet(AsGraph(from), Roots(root)), |from|)
  }

  /* Sums. */

  lemma {:induction false} FieldWaitsMono(from: seq<Obj>, o: Obj, n: nat, m: nat)
    requires o.Record? && n <= m <= |o.fields|
    ensures FieldWaits(from, o, n) <= FieldWaits(from, o, m)
  {
    if n < m {
      FieldWaitsMono(from, o, n, m - 1);
    }
  }

  lemma {:induction false} SrcWaitsMono(from: seq<Obj>, src: seq<nat>, n: nat)
    requires n <= |src| && SrcInside(from, src)
    ensures SrcWaits(from, src[..n]) <= SrcWaits(from, src)
  {
    if n < |src| {
      SrcWaitsMono(from, src[..|src| - 1], n);
      assert src[..|src| - 1][..n] == src[..n];
    } else {
      assert src[..n] == src;
    }
  }

  lemma SrcWaitsNext(from: seq<Obj>, src: seq<nat>, n: nat)
    requires n < |src| && SrcInside(from, src)
    ensures SrcWaits(from, src[..n + 1]) == SrcWaits(from, src[..n]) + ObjWaits(from, from[src[n]])
  {
    assert src[..n + 1][..n] == src[..n];
  }

  lemma {:induction false} SetWaitsAdd(from: seq<Obj>, live: set<nat>, x: nat, n: nat)
    requires n <= |from| && x !in live
    ensures SetWaits(from, live + {x}, n) == SetWaits(from, live, n) + if x < n then ObjWaits(from, from[x]) else 0
  {
    if n > 0 {
      SetWaitsAdd(from, live, x, n - 1);
    }
  }

  lemma {:induction false} SetWaitsMono(from: seq<Obj>, a: set<nat>, b: set<nat>, n: nat)
    requires n <= |from| && forall i :: i in a && i < n && !IsTable(from[i]) ==> i in b
    ensures SetWaits(from, a, n) <= SetWaits(from, b, n)
  {
    if n > 0 {
      SetWaitsMono(from, a, b, n - 1);
      if IsTable(from[n - 1]) {
        NoWaits(from, from[n - 1], |from[n - 1].fields|);
      }
    }
  }

  /** Nothing is followed in tables. */
  lemma {:induction false} NoWaits(from: seq<Obj>, o: Obj, n: nat)
    requires IsTable(o) && n <= |o.fields|
    ensures FieldWaits(from, o, n) == 0
  {
    if n > 0 {
      NoWaits(from, o, n - 1);
    }
  }

  function Members(src: seq<nat>): set<nat> {
    set x | x in src
  }

  lemma {:induction false} NoneWait(from: seq<Obj>, n: nat)
    requires n <= |from|
    ensures SetWaits(from, {}, n) == 0
  {
    if n > 0 {
      NoneWait(from, n - 1);
    }
  }

  lemma {:induction false} SrcIsSet(from: seq<Obj>, src: seq<nat>)
    requires SrcInside(from, src)
    requires Distinct(src)
    ensures SrcWaits(from, src) == SetWaits(from, Members(src), |from|)
  {
    if src == [] {
      NoneWait(from, |from|);
      assert Members(src) == {};
    } else {
      var before, x := src[..|src| - 1], src[|src| - 1];
      SrcIsSet(from, before);
      SetWaitsAdd(from, Members(before), x, |from|);
      assert src == before + [x];
      assert Members(src) == Members(before) + {x};
    }
  }

  /* States of the first phase. */

  /** A field that is scanned waits exactly when the one it was copied from does. */
  lemma FieldWaitsAlike(from: seq<Obj>, root: Val, s: State, j: nat, k: nat)
    requires Inv(from, root, s) && NoTables(from, s) && j < |s.to| && s.to[j].Record? && k < |s.to[j].fields|
    ensures var o := from[s.src[j]];
            && o.Record? && |o.fields| == |s.to[j].fields|
            && FieldWait(from, o, k) == if Waits(from, s.to[j].fields[k]) then 1 else 0
  {
    hide Live, Held, CountsOk, NothingLeft, Number, IsDispatch, OnlyLive, InOrder;
    SameShape(from, root, s, j);
    var o := from[s.src[j]];
    assert FieldOk(o, k, s.to[j].fields[k], s.forward, NumberAt(s, j));
    if Waits(from, o.fields[k]) {
      TableStays(from, root, s, o.fields[k].i);
    }
  }

  lemma SameShape(from: seq<Obj>, root: Val, s: State, j: nat)
    requires Inv(from, root, s) && NoTables(from, s) && j < |s.to|
    ensures s.src[j] < |from| && !IsTable(from[s.src[j]])
    ensures var o := from[s.src[j]];
            if o.Blob? then s.to[j].Blob? else RecordOk(o, s.to[j], s.forward, NumberAt(s, j))
  {
    hide Live, Held, CountsOk, NothingLeft, Number, OnlyLive, InOrder;
    PlainRecord(from, s.src[j]);
    assert CopyOk(from[s.src[j]], s.to[j], s.forward, NumberAt(s, j));
  }

  /** In the first phase tables stay. */
  lemma TableStays(from: seq<Obj>, root: Val, s: State, i: nat)
    requires Inv(from, root, s) && NoTables(from, s) && i < |from| && IsTable(from[i])
    ensures s.forward[i].Stays?
  {
    hide CopiesOk, DropsOk, CountsOk, OnlyLive, InOrder;
  }

  /** Places in the new store are not taken twice, so that it only grows at its end. */
  lemma SrcKept(from: seq<Obj>, root: Val, s: State, s': State)
    requires Inv(from, root, s) && Inv(from, root, s') && Later(s.forward, s'.forward)
    ensures |s.src| <= |s'.src| && s'.src[..|s.src|] == s.src
  {
    hide CopiesOk, DropsOk, CountsOk, OnlyLive, InOrder;
    forall j | 0 <= j < |s.src|
      ensures j < |s'.src| && s'.src[j] == s.src[j]
    {
      assert s'.forward[s.src[j]] == Moved(j);
    }
    if |s.src| > 0 {
      var last := |s.src| - 1;
      assert s'.forward[s.src[last]] == Moved(last);
    }
  }

  /** What has been copied is alive. */
  lemma CopiedRefs(from: seq<Obj>, root: Val, s: State)
    requires Inv(from, root, s) && NoTables(from, s)
    ensures SrcInside(from, s.src)
    ensures SrcWaits(from, s.src) <= SetWaits(from, ReachableSet(AsGraph(from), Roots(root)), |from|)
  {
    hide CopiesOk, DropsOk, CountsOk, InOrder, ReachableSet;
    SrcIsSet(from, s.src);
    forall i | i in Members(s.src)
      ensures Live(from, root, i)
    {
      var j :| 0 <= j < |s.src| && s.src[j] == i;
      assert s.forward[s.src[j]] == Moved(j);
    }
    SetWaitsMono(from, Members(s.src), ReachableSet(AsGraph(from), Roots(root)), |from|);
  }

  /** Where only tables are still pointed to, all else that is alive has been copied. */
  lemma LiveMoved(from: seq<Obj>, root: Val, s: State)
    requires StoreOk(from) && RootOk(from, root) && Inv(from, root, s) && NoTables(from, s)
    requires forall x :: 0 <= x < |s.to| ==> TablesLeft(from, s.to[x])
    requires root.Old? ==> s.forward[root.i].Moved? || IsTable(from[root.i])
    ensures forall i: nat | i < |from| && !IsTable(from[i]) && Live(from, root, i) :: s.forward[i].Moved?
  {
    hide Live, Held, DropsOk, CountsOk, OnlyLive, InOrder, NodeOk, NoSharing, CopiesOk;
    var region := set i: nat | i < |from| && (s.forward[i].Moved? || IsTable(from[i]));
    forall i, k | i in region && i < |from| && 0 <= k && Followed(from[i], k) && from[i].fields[k].Old?
      ensures from[i].fields[k].i in region
    {
      assert PointsInside(from[i], i, |from|) && FieldInside(from[i], from[i].fields[k], i, |from|);
      var at := s.forward[i].at;
      assert s.src[at] == i;
      SameShape(from, root, s, at);
      assert FieldOk(from[i], k, s.to[at].fields[k], s.forward, NumberAt(s, at));
      assert TablesLeft(from, s.to[at]);
    }
    LiveLeast(from, root, region);
  }

  /** At the end of the first phase all references that are alive have been met. */
  lemma AllRefs(from: seq<Obj>, root: Val, s: State)
    requires StoreOk(from) && RootOk(from, root) && Inv(from, root, s) && NoTables(from, s)
    requires forall x :: 0 <= x < |s.to| ==> TablesLeft(from, s.to[x])
    requires root.Old? ==> s.forward[root.i].Moved? || IsTable(from[root.i])
    ensures SrcInside(from, s.src)
    ensures SrcWaits(from, s.src) == SetWaits(from, ReachableSet(AsGraph(from), Roots(root)), |from|)
  {
    hide CopiesOk, DropsOk, CountsOk, InOrder, ReachableSet, StoreOk, OnlyLive;
    CopiedRefs(from, root, s);
    SrcIsSet(from, s.src);
    LiveMoved(from, root, s);
    var live := ReachableSet(AsGraph(from), Roots(root));
    forall i | i in live && i < |from| && !IsTable(from[i])
      ensures i in Members(s.src)
    {
      assert Live(from, root, i);
      assert s.src[s.forward[i].at] == i;
    }
    SetWaitsMono(from, live, Members(s.src), |from|);
  }
}
