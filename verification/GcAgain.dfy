/** A collected store can be collected again. */
module GcAgain {
  import opened Basics
  import opened Mapvecs
  import opened GcStores
  import opened GcStates
  import opened Collectors
  import opened GcResults

  /* The new store, read as an old one. */

  function Reread(v: Val): Val {
    if v.New? then Old(v.j) else v
  }

  function RereadAll(vals: seq<Val>): (r: seq<Val>)
    ensures |r| == |vals| && forall k :: 0 <= k < |vals| ==> r[k] == Reread(vals[k])
  {
    seq(|vals|, k requires 0 <= k < |vals| => Reread(vals[k]))
  }

  function RereadObj(o: Obj): Obj {
    match o
    case Blob(_) => o
    case Record(tag, fields) => Record(tag, RereadAll(fields))
  }

  function RereadStore(to: seq<Obj>): (r: seq<Obj>)
    ensures |r| == |to| && forall j :: 0 <= j < |to| ==> r[j] == RereadObj(to[j])
  {
    seq(|to|, j requires 0 <= j < |to| => RereadObj(to[j]))
  }

  function RereadSlot(slot: Option<Val>): Option<Val> {
    if slot.Some? then Some(Reread(slot.value)) else None
  }

  /** Dispatch nodes stay dispatch nodes, with the same slots. */
  lemma RereadVec(fields: seq<Val>)
    requires HasMap(fields)
    ensures HasMap(RereadAll(fields))
    ensures ValidVec(AsVec(RereadAll(fields))) <==> ValidVec(AsVec(fields))
    ensures ValidVec(AsVec(fields)) ==>
              forall k: nat | k < 32 :: Get(AsVec(RereadAll(fields)), k) == RereadSlot(Get(AsVec(fields), k))
  {
    hide Pow2, Bit, CountBelow, Popcount, ShiftLeft;
    var v, w := AsVec(fields), AsVec(RereadAll(fields));
    assert v.bits == w.bits && |v.slots| == |w.slots|;
    if ValidVec(v) {
      forall k: nat | k < 32
        ensures Get(w, k) == RereadSlot(Get(v, k))
      {
        PositionInside(v, k);
        PositionInside(w, k);
      }
    }
  }

  /** A copy is of the kind of its original. */
  lemma SameKind(from: seq<Obj>, root: Val, s: State, j: nat)
    requires StoreOk(from) && Inv(from, root, s) && j < |s.to|
    ensures s.src[j] < |from| && s.forward[s.src[j]] == Moved(j)
    ensures from[s.src[j]].Blob? <==> s.to[j].Blob?
    ensures s.to[j].Record? ==> s.to[j].tag == from[s.src[j]].tag
    ensures IsTable(s.to[j]) <==> IsTable(from[s.src[j]])
    ensures s.to[j].Record? ==> s.to[j].tag < FIRST_DICT_TAG || IsSearch(s.to[j]) || IsDispatch(s.to[j])
    ensures IsSearch(s.to[j]) ==> IsSearch(from[s.src[j]])
    ensures IsDispatch(s.to[j]) ==> IsDispatch(from[s.src[j]])
  {
    hide ValidVec, NoSharing, Live, Held, CountsOk, NothingLeft, Number, NoSlots, SlotsMatch, SlotsSettled, Kept;
    var i := s.src[j];
    assert NodeOk(from, from[i]);
    assert CopyOk(from[i], s.to[j], s.forward, NumberAt(s, j));
  }

  /** An entry of a search node that points to a new object comes from one of the old node. */
  lemma {:induction false} KeptFrom(vals: seq<Val>, forward: seq<Forward>, k: nat) returns (x: nat)
    requires k < |Kept(vals, forward)| && Kept(vals, forward)[k].New?
    requires forall y :: 0 <= y < |vals| ==> !vals[y].New?
    ensures x < |vals| && vals[x].Old? && vals[x].i < |forward|
    ensures forward[vals[x].i] == Moved(Kept(vals, forward)[k].j)
  {
    var last := |vals| - 1;
    if k < |Kept(vals[..last], forward)| {
      x := KeptFrom(vals[..last], forward, k);
    } else {
      x := last;
    }
  }

  lemma SearchTargets(from: seq<Obj>, root: Val, s: State, j: nat, k: nat)
    requires StoreOk(from) && Inv(from, root, s) && j < |s.to| && IsSearch(s.to[j])
    requires 0 < k < |s.to[j].fields| && s.to[j].fields[k].New?
    ensures s.to[j].fields[k].j < |s.to| && !IsTable(s.to[s.to[j].fields[k].j])
  {
    hide ValidVec, NoSharing, Live, Held, CountsOk, NothingLeft, Number, IsDispatch, CopyOk, DropsOk, OnlyLive, InOrder;
    SameKind(from, root, s, j);
    var o := from[s.src[j]];
    assert NodeOk(from, o) && PointsInside(o, s.src[j], |from|);
    CopiedSearch(from, root, s, j);
    forall y | 0 <= y < |o.fields[1..]|
      ensures !o.fields[1..][y].New?
    {
      assert FieldInside(o, o.fields[y + 1], s.src[j], |from|);
    }
    var x := KeptFrom(o.fields[1..], s.forward, k - 1);
    assert o.fields[1..][x] == o.fields[x + 1];
    SameKind(from, root, s, s.to[j].fields[k].j);
  }

  /** The subtables of a new dispatch node are tables and lie before it. */
  lemma SlotTargets(from: seq<Obj>, root: Val, s: State, j: nat, k: nat)
    requires StoreOk(from) && Inv(from, root, s) && j < |s.to| && IsDispatch(s.to[j])
    requires 0 < k < |s.to[j].fields| && s.to[j].fields[k] != Null
    ensures s.to[j].fields[k].New? && s.to[j].fields[k].j < j && IsTable(s.to[s.to[j].fields[k].j])
  {
    hide ValidVec, NoSharing, Live, Held, CountsOk, NothingLeft, Number, Get, CopyOk, DropsOk, OnlyLive;
    SameKind(from, root, s, j);
    var b := SlotIndex(AsVec(s.to[j].fields), k - 1);
    SlotCopied(from, root, s, j, b);
    var c := s.to[j].fields[k].j;
    SameKind(from, root, s, c);
    assert Child(from, s.src[j], b, s.src[c]);
  }

  /** The fields of other objects lead into the new store, to copies of what they led to. */
  lemma PlainTargets(from: seq<Obj>, root: Val, s: State, w: Val, j: nat, k: nat)
    requires StoreOk(from) && Collected(from, root, s, w) && j < |s.to| && s.to[j].Record? && !IsTable(s.to[j])
    requires k < |s.to[j].fields| && s.to[j].fields[k].New?
    ensures s.to[j].fields[k].j < |s.to| && Followed(from[s.src[j]], k)
    ensures from[s.src[j]].fields[k] == Old(s.src[s.to[j].fields[k].j])
  {
    hide NoSharing, Live, Held, CountsOk, NothingLeft, Number, IsDispatch, CopyOk, DropsOk, OnlyLive, InOrder;
    SameKind(from, root, s, j);
    var i := s.src[j];
    PlainFields(from, root, s, j);
    FieldCopied(from, root, s, w, i, k);
    assert PointsInside(from[i], i, |from|) && FieldInside(from[i], from[i].fields[k], i, |from|);
  }

  lemma PlainFields(from: seq<Obj>, root: Val, s: State, j: nat)
    requires StoreOk(from) && Inv(from, root, s) && j < |s.to| && s.to[j].Record? && !IsTable(s.to[j])
    ensures from[s.src[j]].Record? && |from[s.src[j]].fields| == |s.to[j].fields|
  {
    hide NoSharing, Live, Held, CountsOk, NothingLeft, Number, IsDispatch, DropsOk, OnlyLive, InOrder;
    SameKind(from, root, s, j);
    PlainRecord(from, s.src[j]);
    assert CopyOk(from[s.src[j]], s.to[j], s.forward, NumberAt(s, j));
  }

  lemma RereadInside(from: seq<Obj>, root: Val, s: State, w: Val, j: nat)
    requires StoreOk(from) && Collected(from, root, s, w) && j < |s.to|
    ensures PointsInside(RereadObj(s.to[j]), j, |s.to|)
  {
    hide Inv, StoreOk, ValidVec;
    var o := s.to[j];
    SameKind(from, root, s, j);
    if o.Record? {
      forall k | 0 <= k < |o.fields|
        ensures FieldInside(RereadObj(o), Reread(o.fields[k]), j, |s.to|)
      {
        assert Clean(o);
        if o.fields[k].New? {
          if IsSearch(o) {
            SearchTargets(from, root, s, j, k);
          } else if IsDispatch(o) {
            SlotTargets(from, root, s, j, k);
          } else {
            PlainTargets(from, root, s, w, j, k);
          }
        }
      }
    }
  }

  lemma RereadNode(from: seq<Obj>, root: Val, s: State, w: Val, j: nat)
    requires StoreOk(from) && Collected(from, root, s, w) && j < |s.to|
    ensures NodeOk(RereadStore(s.to), RereadObj(s.to[j]))
  {
    hide Inv, StoreOk, ValidVec;
    var o, to' := s.to[j], RereadStore(s.to);
    SameKind(from, root, s, j);
    if IsTable(o) {
      RereadVec(o.fields);
      forall k | 0 < k < |o.fields| && o.fields[k].New?
        ensures o.fields[k].j < |to'|
        ensures if IsSearch(o) then !IsTable(to'[o.fields[k].j]) else IsTable(to'[o.fields[k].j])
      {
        if IsSearch(o) {
          SearchTargets(from, root, s, j, k);
        } else {
          SlotTargets(from, root, s, j, k);
        }
      }
      forall k | 0 < k < |o.fields| && IsDispatch(o) && o.fields[k] != Null
        ensures o.fields[k].New?
      {
        SlotTargets(from, root, s, j, k);
      }
      assert Clean(o);
    }
  }

  /** A subtable of the new store is the copy of a subtable. */
  lemma RereadChild(from: seq<Obj>, root: Val, s: State, d: nat, k: nat, c: nat)
    requires StoreOk(from) && Inv(from, root, s) && d < |s.to| && Clean(s.to[d])
    requires Child(RereadStore(s.to), d, k, c)
    ensures c < |s.to| && s.src[d] < |from| && s.src[c] < |from| && Child(from, s.src[d], k, s.src[c])
  {
    hide Inv, StoreOk, ValidVec, Get;
    SameKind(from, root, s, d);
    RereadVec(s.to[d].fields);
    SlotCopied(from, root, s, d, k);
    SameKind(from, root, s, c);
  }

  /** What a plain object of the new store leads to is not a subtable. */
  lemma RereadFollowed(from: seq<Obj>, root: Val, s: State, w: Val, i: nat, f: nat)
    requires StoreOk(from) && Collected(from, root, s, w) && i < |s.to|
    requires Followed(RereadObj(s.to[i]), f) && RereadObj(s.to[i]).fields[f].Old?
    ensures var c := RereadObj(s.to[i]).fields[f].i;
            c < |s.to| && |s.src| == |s.to| && forall d, k :: !Child(from, d, k, s.src[c])
  {
    hide CopiesOk, DropsOk, CountsOk, OnlyLive, InOrder, Child, NodeOk;
    assert Clean(s.to[i]);
    PlainTargets(from, root, s, w, i, f);
    SameKind(from, root, s, i);
  }

  lemma RereadSharing(from: seq<Obj>, root: Val, s: State, w: Val)
    requires StoreOk(from) && Collected(from, root, s, w)
    ensures NoSharing(RereadStore(s.to))
  {
    hide CopiesOk, DropsOk, CountsOk, OnlyLive, InOrder, Child, NodeOk;
    var to' := RereadStore(s.to);
    forall d: nat, k: nat, c: nat | Child(to', d, k, c)
      ensures d < |s.to| && c < |s.to| && Child(from, s.src[d], k, s.src[c]) && s.forward[s.src[d]] == Moved(d)
    {
      assert d < |to'| by { ChildInside(to', d, k, c); }
      RereadChild(from, root, s, d, k, c);
    }
    forall i, f | 0 <= i < |to'| && 0 <= f && Followed(to'[i], f) && to'[i].fields[f].Old?
      ensures forall d, k :: !Child(to', d, k, to'[i].fields[f].i)
    {
      RereadFollowed(from, root, s, w, i, f);
    }
  }

  lemma ChildInside(from: seq<Obj>, d: nat, k: nat, c: nat)
    requires Child(from, d, k, c)
    ensures d < |from|
  {
  }

  lemma RootMoved(from: seq<Obj>, root: Val, s: State, w: Val)
    requires RootOk(from, root) && Collected(from, root, s, w) && w.New?
    ensures |s.src| == |s.to| && root.Old? && w.j < |s.to| && s.src[w.j] == root.i
  {
    hide CopiesOk, DropsOk, CountsOk, OnlyLive, InOrder, Child;
    assert s.forward[root.i] == Moved(w.j);
  }

  /** What has been collected can be collected again, from the new root. */
  lemma CollectAgain(from: seq<Obj>, root: Val, s: State, w: Val)
    requires StoreOk(from) && RootOk(from, root) && Collected(from, root, s, w)
    ensures StoreOk(RereadStore(s.to)) && RootOk(RereadStore(s.to), Reread(w))
  {
    hide CopiesOk, DropsOk, CountsOk, OnlyLive, InOrder, Child, NodeOk, NoSharing, PointsInside;
    var to' := RereadStore(s.to);
    forall j: nat | j < |to'|
      ensures PointsInside(to'[j], j, |to'|) && NodeOk(to', to'[j])
    {
      RereadInside(from, root, s, w, j);
      RereadNode(from, root, s, w, j);
    }
    RereadSharing(from, root, s, w);
    if w.New? {
      RootMoved(from, root, s, w);
      forall d: nat, k: nat
        ensures !Child(to', d, k, w.j)
      {
        if Child(to', d, k, w.j) {
          ChildInside(to', d, k, w.j);
          RereadChild(from, root, s, d, k, w.j);
        }
      }
    }
  }
}
