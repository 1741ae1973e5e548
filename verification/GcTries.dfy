/** Tables as hash tries, before and after a collection. */
module GcTries {
  import opened Basics
  import opened Mapvecs
  import opened HashTries
  import opened GcStores
  import opened GcStates
  import opened Collectors
  import opened GcResults
  import opened GcAgain

  /** The trie that a table node of a store is the root of. */
  ghost function TrieAt(from: seq<Obj>, i: nat): Node<Val>
    requires StoreOk(from) && i < |from| && IsTable(from[i])
    decreases i, 1
  {
    TableKind(from, i);
    var fields := from[i].fields;
    if IsSearch(from[i]) then Search(fields[0].n, fields[1..])
    else Dispatch(Mapvec(fields[0].n, seq(|fields| - 1, p requires 0 <= p < |fields| - 1 => SlotTrie(from, i, p))))
  }

  ghost function SlotTrie(from: seq<Obj>, i: nat, p: nat): Option<Node<Val>>
    requires StoreOk(from) && i < |from| && IsDispatch(from[i]) && p < |from[i].fields| - 1
    decreases i, 0
  {
    SlotInside(from, i, p);
    var v := from[i].fields[p + 1];
    if v == Null then None else Some(TrieAt(from, v.i))
  }

  lemma SlotInside(from: seq<Obj>, i: nat, p: nat)
    requires StoreOk(from) && i < |from| && IsDispatch(from[i]) && p < |from[i].fields| - 1
    ensures var v := from[i].fields[p + 1];
            v != Null ==> v.Old? && v.i < i && IsTable(from[v.i])
  {
    hide ValidVec, NoSharing;
    assert NodeOk(from, from[i]) && PointsInside(from[i], i, |from|);
    assert FieldInside(from[i], from[i].fields[p + 1], i, |from|);
  }

  /** What an index of a dispatch node leads to. */
  ghost function ChildTrie(from: seq<Obj>, i: nat, k: nat): Option<Node<Val>>
    requires StoreOk(from) && i < |from| && IsDispatch(from[i]) && k < 32
  {
    SlotTarget(from, i, k);
    var slot := Get(AsVec(from[i].fields), k);
    if slot.Some? then Some(TrieAt(from, slot.value.i)) else None
  }

  lemma DispatchTrie(from: seq<Obj>, i: nat)
    requires StoreOk(from) && i < |from| && IsTable(from[i]) && IsDispatch(from[i])
    ensures TrieAt(from, i).Dispatch? && ValidVec(TrieAt(from, i).vec)
    ensures forall k: nat | k < 32 :: Get(TrieAt(from, i).vec, k) == ChildTrie(from, i, k)
  {
    hide Pow2, Bit, CountBelow, Popcount, ShiftLeft, StoreOk;
    var v, w := AsVec(from[i].fields), TrieAt(from, i).vec;
    assert v.bits == w.bits && |v.slots| == |w.slots|;
    forall k: nat | k < 32
      ensures Get(w, k) == ChildTrie(from, i, k)
    {
      PositionInside(v, k);
      PositionInside(w, k);
      if Bit(Full(v), k) {
        var p := SlotPosition(Full(v), k) - 1;
        assert v.slots[p] == AsSlot(from[i].fields[1..][p]) && w.slots[p] == SlotTrie(from, i, p);
      }
    }
  }

  /** The copy of a table, read as a trie of the new store. */
  ghost function NewTrie(from: seq<Obj>, root: Val, s: State, w: Val, i: nat): Option<Node<Val>>
    requires StoreOk(from) && RootOk(from, root) && Collected(from, root, s, w)
    requires i < |from| && IsTable(from[i]) && !s.forward[i].Stays?
  {
    hide Inv, StoreOk, RootOk, IsDispatch;
    Backed(from, root, s, i);
    CollectAgain(from, root, s, w);
    if s.forward[i].Moved? then
      CopyIsTable(from, root, s, i);
      Some(TrieAt(RereadStore(s.to), s.forward[i].at))
    else None
  }

  lemma CopyIsTable(from: seq<Obj>, root: Val, s: State, i: nat)
    requires StoreOk(from) && Inv(from, root, s) && i < |from| && IsTable(from[i]) && s.forward[i].Moved?
    ensures s.forward[i].at < |s.to| && s.src[s.forward[i].at] == i && IsTable(RereadObj(s.to[s.forward[i].at]))
    ensures IsSearch(from[i]) ==> IsSearch(RereadObj(s.to[s.forward[i].at]))
    ensures IsDispatch(from[i]) ==>
              IsDispatch(s.to[s.forward[i].at]) && IsDispatch(RereadObj(s.to[s.forward[i].at]))
  {
    hide Inv, StoreOk, ValidVec, Get;
    Backed(from, root, s, i);
    var at := s.forward[i].at;
    SameKind(from, root, s, at);
    if IsDispatch(from[i]) {
      SlotCopied(from, root, s, at, 0);
      RereadVec(s.to[at].fields);
    }
  }

  /** Each index of a copied dispatch node leads to the copy of what it led to. */
  lemma NewChild(from: seq<Obj>, root: Val, s: State, w: Val, i: nat, k: nat)
    requires StoreOk(from) && RootOk(from, root) && Collected(from, root, s, w)
    requires i < |from| && IsTable(from[i]) && IsDispatch(from[i]) && s.forward[i].Moved? && k < 32
    ensures NewTrie(from, root, s, w, i).Some? && NewTrie(from, root, s, w, i).value.Dispatch?
    ensures ValidVec(NewTrie(from, root, s, w, i).value.vec)
    ensures Get(NewTrie(from, root, s, w, i).value.vec, k) == NewBelow(from, root, s, w, i, k)
  {
    hide Inv, StoreOk, RootOk, ValidVec, Get, TrieAt;
    Backed(from, root, s, i);
    CollectAgain(from, root, s, w);
    CopyIsTable(from, root, s, i);
    var at, to' := s.forward[i].at, RereadStore(s.to);
    DispatchTrie(to', at);
    RereadVec(s.to[at].fields);
    SlotCopied(from, root, s, at, k);
    ChildSettled(from, root, s, i, k);
    SlotTarget(from, i, k);
  }

  /** The copy of what an index led to. */
  ghost function NewBelow(from: seq<Obj>, root: Val, s: State, w: Val, i: nat, k: nat): Option<Node<Val>>
    requires StoreOk(from) && RootOk(from, root) && Collected(from, root, s, w)
    requires i < |from| && IsTable(from[i]) && IsDispatch(from[i]) && !s.forward[i].Stays? && k < 32
  {
    SlotTarget(from, i, k);
    ChildSettled(from, root, s, i, k);
    var slot := Get(AsVec(from[i].fields), k);
    if slot.Some? then NewTrie(from, root, s, w, slot.value.i) else None
  }

  /** What is left of some entries, in the new store. */
  ghost function Left(from: seq<Obj>, root: Val, s: State, vals: seq<Val>): seq<Val> {
    RereadAll(RelocatedAll(Surviving(from, root, vals), s.forward))
  }

  /** The new trie is well-formed, and has for every hash what is left of the old entries. */
  ghost predicate KeepsBuckets(from: seq<Obj>, root: Val, s: State, was: Option<Node<Val>>, now: Option<Node<Val>>,
                               path: seq<nat>)
    requires TrieOk(was, path)
  {
    TrieOk(now, path) && forall h: nat :: Find(now, path, h) == Left(from, root, s, Find(was, path, h))
  }

  lemma SearchKeepsBuckets(from: seq<Obj>, root: Val, s: State, w: Val, i: nat, path: seq<nat>)
    requires StoreOk(from) && RootOk(from, root) && Collected(from, root, s, w)
    requires i < |from| && IsTable(from[i]) && IsSearch(from[i]) && !s.forward[i].Stays?
    requires TrieOk(Some(TrieAt(from, i)), path)
    ensures KeepsBuckets(from, root, s, Some(TrieAt(from, i)), NewTrie(from, root, s, w, i), path)
  {
    hide Inv, StoreOk, RootOk, Live, Surviving, IsDispatch;
    Backed(from, root, s, i);
    CollectAgain(from, root, s, w);
    TableKeepsLive(from, root, s, w, i);
    NotBoth(from[i]);
    NoneSurvive(from, root, s.forward);
    if s.forward[i].Moved? {
      var at := s.forward[i].at;
      CopyIsTable(from, root, s, i);
      CopiedSearch(from, root, s, at);
      assert RereadAll(s.to[at].fields)[1..] == RereadAll(s.to[at].fields[1..]);
    }
  }

  /** Looking up a hash in the copy of a table finds exactly those of the entries that the table had
      for it that are reachable without the table; and the copy is a well-formed trie again. */
  lemma {:induction false} TableKeepsBuckets(from: seq<Obj>, root: Val, s: State, w: Val, i: nat, path: seq<nat>)
    requires StoreOk(from) && RootOk(from, root) && Collected(from, root, s, w)
    requires i < |from| && IsTable(from[i]) && !s.forward[i].Stays?
    requires TrieOk(Some(TrieAt(from, i)), path)
    ensures KeepsBuckets(from, root, s, Some(TrieAt(from, i)), NewTrie(from, root, s, w, i), path)
    decreases i, 1
  {
    hide Inv, StoreOk, RootOk, Left, KeepsBuckets, Get, ValidVec, TrieAt, TrieOk;
    TableKind(from, i);
    Backed(from, root, s, i);
    if IsSearch(from[i]) {
      SearchKeepsBuckets(from, root, s, w, i, path);
    } else {
      DispatchTrie(from, i);
      var vec := TrieAt(from, i).vec;
      forall k: nat | k < 32
        ensures TrieOk(Get(vec, k), path + [k])
        ensures KeepsBuckets(from, root, s, Get(vec, k), NewBelow(from, root, s, w, i, k), path + [k])
      {
        BelowKeepsBuckets(from, root, s, w, i, k, path);
      }
      if s.forward[i].Moved? {
        forall k: nat | k < 32
          ensures NewTrie(from, root, s, w, i).Some? && NewTrie(from, root, s, w, i).value.Dispatch?
          ensures ValidVec(NewTrie(from, root, s, w, i).value.vec)
          ensures Get(NewTrie(from, root, s, w, i).value.vec, k) == NewBelow(from, root, s, w, i, k)
        {
          NewChild(from, root, s, w, i, k);
        }
        NewChild(from, root, s, w, i, 0);
        var now := NewTrie(from, root, s, w, i).value.vec;
        DispatchKeepsBuckets(from, root, s, vec, now, path);
      } else {
        forall k: nat | k < 32
          ensures NewBelow(from, root, s, w, i, k) == None
        {
          NoneBelow(from, root, s, w, i, k);
        }
        NothingKeepsBuckets(from, root, s, vec, path);
      }
    }
  }

  lemma {:induction false} BelowKeepsBuckets(from: seq<Obj>, root: Val, s: State, w: Val, i: nat, k: nat,
                                             path: seq<nat>)
    requires StoreOk(from) && RootOk(from, root) && Collected(from, root, s, w)
    requires i < |from| && IsTable(from[i]) && IsDispatch(from[i]) && !s.forward[i].Stays? && k < 32
    requires TrieOk(Some(TrieAt(from, i)), path)
    ensures TrieOk(ChildTrie(from, i, k), path + [k])
    ensures KeepsBuckets(from, root, s, ChildTrie(from, i, k), NewBelow(from, root, s, w, i, k), path + [k])
    decreases i, 0
  {
    hide Inv, StoreOk, RootOk, Left, Get, ValidVec, TrieAt;
    DispatchTrie(from, i);
    Subtrie(TrieAt(from, i).vec, path, k);
    assert TrieOk(ChildTrie(from, i, k), path + [k]);
    SlotTarget(from, i, k);
    ChildSettled(from, root, s, i, k);
    var slot := Get(AsVec(from[i].fields), k);
    if slot.Some? {
      TableKeepsBuckets(from, root, s, w, slot.value.i, path + [k]);
    } else {
      NothingLeftOfNothing(from, root, s);
    }
  }

  lemma NothingLeftOfNothing(from: seq<Obj>, root: Val, s: State)
    ensures Left(from, root, s, []) == []
  {
  }

  /** Of a dropped dispatch node no index leads anywhere. */
  lemma NoneBelow(from: seq<Obj>, root: Val, s: State, w: Val, i: nat, k: nat)
    requires StoreOk(from) && RootOk(from, root) && Collected(from, root, s, w)
    requires i < |from| && IsTable(from[i]) && IsDispatch(from[i]) && s.forward[i].Dropped? && k < 32
    ensures NewBelow(from, root, s, w, i, k) == None
  {
    hide Inv, StoreOk, RootOk, Get, ValidVec, TrieAt;
    SlotTarget(from, i, k);
    ChildSettled(from, root, s, i, k);
  }

  lemma DispatchKeepsBuckets(from: seq<Obj>, root: Val, s: State, was: Mapvec<Node<Val>>, now: Mapvec<Node<Val>>,
                             path: seq<nat>)
    requires TrieOk(Some(Dispatch(was)), path) && ValidVec(was) && ValidVec(now)
    requires forall k: nat | k < 32 ::
               TrieOk(Get(was, k), path + [k]) && KeepsBuckets(from, root, s, Get(was, k), Get(now, k), path + [k])
    ensures KeepsBuckets(from, root, s, Some(Dispatch(was)), Some(Dispatch(now)), path)
  {
    hide Get, ValidVec, Left, Index;
    forall h: nat
      ensures TrieOk(Some(Dispatch(now)), path)
      ensures Find(Some(Dispatch(now)), path, h) == Left(from, root, s, Find(Some(Dispatch(was)), path, h))
    {
      var k := Index(h, BITS_PER_LEVEL * |path|);
      assert KeepsBuckets(from, root, s, Get(was, k), Get(now, k), path + [k]);
    }
  }

  lemma NothingKeepsBuckets(from: seq<Obj>, root: Val, s: State, was: Mapvec<Node<Val>>, path: seq<nat>)
    requires TrieOk(Some(Dispatch(was)), path) && ValidVec(was)
    requires forall k: nat | k < 32 ::
               TrieOk(Get(was, k), path + [k]) && KeepsBuckets(from, root, s, Get(was, k), None, path + [k])
    ensures KeepsBuckets(from, root, s, Some(Dispatch(was)), None, path)
  {
    hide Get, ValidVec, Left, Index;
    forall h: nat
      ensures Find(None, path, h) == Left(from, root, s, Find(Some(Dispatch(was)), path, h))
    {
      var k := Index(h, BITS_PER_LEVEL * |path|);
      assert KeepsBuckets(from, root, s, Get(was, k), None, path + [k]);
    }
  }
}
