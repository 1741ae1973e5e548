/** What a collected store is: the part of the old store that is alive, object for object. */
module GcResults {
  import opened Basics
  import opened Mapvecs
  import opened GcStores
  import opened GcStates
  import opened Collectors

  /** The objects that are copied are exactly those alive; every table that is referred to
      is settled, too. */
  lemma LiveAreCopied(from: seq<Obj>, root: Val, s: State, w: Val)
    requires StoreOk(from) && RootOk(from, root) && Collected(from, root, s, w)
    ensures forall i: nat | i < |from| && !IsTable(from[i]) :: s.forward[i].Moved? <==> Live(from, root, i)
    ensures forall i: nat | i < |from| && Live(from, root, i) :: !s.forward[i].Stays?
  {
    hide Live, Held, CopyOk, NodeOk, NoSharing, CountsOk, NothingLeft;
    var region := set i: nat | i < |from| && !s.forward[i].Stays?;
    forall i, k | i in region && i < |from| && 0 <= k && Followed(from[i], k) && from[i].fields[k].Old?
      ensures from[i].fields[k].i in region
    {
      PlainDropped(from, root, s, i);
      FieldCopied(from, root, s, w, i, k);
    }
    LiveLeast(from, root, region);
    forall i: nat | i < |from| && !IsTable(from[i])
      ensures s.forward[i].Moved? <==> Live(from, root, i)
    {
      PlainDropped(from, root, s, i);
    }
  }

  /** Only tables are dropped. */
  lemma PlainDropped(from: seq<Obj>, root: Val, s: State, i: nat)
    requires Inv(from, root, s) && i < |from| && !IsTable(from[i])
    ensures !s.forward[i].Dropped?
  {
    hide Live, Held, CopyOk, CountsOk, SlotsSettled, Kept;
    PlainRecord(from, i);
  }

  /** Objects keep their kind, tag and length, and their fields lead to the copies of what
      they led to; counted objects are renumbered in their first field. */
  lemma FieldCopied(from: seq<Obj>, root: Val, s: State, w: Val, i: nat, k: nat)
    requires StoreOk(from) && Collected(from, root, s, w)
    requires i < |from| && !IsTable(from[i]) && s.forward[i].Moved? && from[i].Record? && k < |from[i].fields|
    ensures s.forward[i].at < |s.to|
    ensures var o, copy := from[i], s.to[s.forward[i].at];
            && copy.Record? && copy.tag == o.tag && |copy.fields| == |o.fields|
            && copy.fields[k] == (if k == 0 && Counted(o) then Int(Number(s.to[..s.forward[i].at], o.tag))
                                  else Relocated(o.fields[k], s.forward))
            && (Followed(o, k) ==> Settled(o.fields[k], s.forward))
  {
    hide Live, Held, NoSharing, CountsOk, NothingLeft, Number, IsDispatch;
    var at := s.forward[i].at;
    assert s.src[at] == i;
    assert CopyOk(from[i], s.to[at], s.forward, NumberAt(s, at));
    assert PointsInside(from[i], i, |from|);
    assert !IsDispatch(from[i]) by { PlainRecord(from, i); }
    assert FieldOk(from[i], k, s.to[at].fields[k], s.forward, NumberAt(s, at));
    assert Clean(s.to[at]);
  }

  lemma BlobCopied(from: seq<Obj>, root: Val, s: State, i: nat)
    requires Inv(from, root, s) && i < |from| && from[i].Blob? && s.forward[i].Moved?
    ensures s.forward[i].at < |s.to| && s.to[s.forward[i].at] == from[i]
  {
    hide Live, Held, CountsOk, NothingLeft, Number, IsDispatch;
    var at := s.forward[i].at;
    assert s.src[at] == i;
    assert CopyOk(from[i], s.to[at], s.forward, NumberAt(s, at));
  }

  /** Nothing is copied twice and nothing else is in the new store: objects and their copies
      belong together one to one, and the new root is the copy of the old one. */
  lemma CopiesAreUnique(from: seq<Obj>, root: Val, s: State, w: Val, i: nat, i': nat)
    requires Collected(from, root, s, w) && i < |from| && i' < |from|
    ensures s.forward[i].Moved? && s.forward[i] == s.forward[i'] ==> i == i'
    ensures forall j: nat | j < |s.to| :: exists x: nat :: x < |from| && s.forward[x] == Moved(j)
    ensures root.Old? ==> root.i < |from| ==> w == if s.forward[root.i].Moved? then New(s.forward[root.i].at) else Null
  {
    hide CopiesOk, DropsOk, CountsOk, OnlyLive, Clean;
    forall j: nat | j < |s.to|
      ensures exists x: nat :: x < |from| && s.forward[x] == Moved(j)
    {
      assert s.forward[s.src[j]] == Moved(j);
    }
  }

  /* Numbers. */

  lemma {:induction false} NumberMono(to: seq<Obj>, tag: nat, j: nat)
    requires j <= |to|
    ensures Number(to[..j], tag) <= Number(to, tag)
    ensures j < |to| && HasNumber(to[j], tag) ==> Number(to[..j], tag) < Number(to, tag)
  {
    if j < |to| {
      NumberMono(to[..|to| - 1], tag, j);
      assert to[..|to| - 1][..j] == to[..j];
    } else {
      assert to[..j] == to;
    }
  }

  lemma {:induction false} NumberTaken(to: seq<Obj>, tag: nat, n: nat) returns (j: nat)
    requires n < Number(to, tag)
    ensures j < |to| && HasNumber(to[j], tag) && Number(to[..j], tag) == n
  {
    var last := |to| - 1;
    if n < Number(to[..last], tag) {
      j := NumberTaken(to[..last], tag, n);
      assert to[..last][..j] == to[..j];
    } else {
      j := last;
    }
  }

  /** An object has the number. */
  ghost predicate IsGiven(to: seq<Obj>, tag: nat, n: nat) {
    exists j: nat :: j < |to| && HasNumber(to[j], tag) && to[j].fields[0] == Int(n)
  }

  /** The objects with a counted tag have exactly the numbers from 0 up to their count, each
      once. */
  lemma Renumbered(from: seq<Obj>, root: Val, s: State, w: Val, tag: nat)
    requires StoreOk(from) && Collected(from, root, s, w) && 64 <= tag < 80
    ensures |s.counts| == 16
    ensures forall j: nat | j < |s.to| && HasNumber(s.to[j], tag) ::
              s.to[j].fields[0].Int? && s.to[j].fields[0].n < s.counts[tag - 64]
    ensures forall j: nat, j': nat | j < j' < |s.to| && HasNumber(s.to[j], tag) && HasNumber(s.to[j'], tag) ::
              s.to[j].fields[0] != s.to[j'].fields[0]
    ensures forall n: nat | n < s.counts[tag - 64] :: IsGiven(s.to, tag, n)
  {
    hide Inv, StoreOk, Number;
    forall j: nat | j < |s.to| && HasNumber(s.to[j], tag)
      ensures |s.counts| == 16 && Number(s.to, tag) == s.counts[tag - 64]
      ensures s.to[j].fields[0] == Int(Number(s.to[..j], tag))
    {
      OwnNumber(from, root, s, w, tag, j);
    }
    assert |s.counts| == 16 && s.counts[tag - 64] == Number(s.to, 64 + (tag - 64)) by {
      CountIs(from, root, s, tag);
    }
    forall j: nat | j < |s.to| && HasNumber(s.to[j], tag)
      ensures Number(s.to[..j], tag) < Number(s.to, tag)
    {
      NumberMono(s.to, tag, j);
    }
    forall j: nat, j': nat | j < j' < |s.to| && HasNumber(s.to[j], tag)
      ensures Number(s.to[..j], tag) < Number(s.to[..j'], tag)
    {
      assert s.to[..j'][..j] == s.to[..j];
      NumberMono(s.to[..j'], tag, j);
    }
    forall n: nat | n < s.counts[tag - 64]
      ensures IsGiven(s.to, tag, n)
    {
      var j := NumberTaken(s.to, tag, n);
      assert s.to[j].fields[0] == Int(n);
    }
  }

  lemma CountIs(from: seq<Obj>, root: Val, s: State, tag: nat)
    requires Inv(from, root, s) && 64 <= tag < 80
    ensures |s.counts| == 16 && s.counts[tag - 64] == Number(s.to, tag)
  {
    hide CopiesOk, DropsOk, OnlyLive, Number;
    assert 64 + (tag - 64) == tag;
  }

  lemma OwnNumber(from: seq<Obj>, root: Val, s: State, w: Val, tag: nat, j: nat)
    requires StoreOk(from) && Collected(from, root, s, w) && 64 <= tag < 80 && j < |s.to| && HasNumber(s.to[j], tag)
    ensures |s.counts| == 16 && Number(s.to, tag) == s.counts[tag - 64]
    ensures s.to[j].fields[0] == Int(Number(s.to[..j], tag))
  {
    hide Live, Held, NoSharing, NothingLeft, Number, IsDispatch;
    CountIs(from, root, s, tag);
    var i := s.src[j];
    assert NodeOk(from, from[i]);
    assert CopyOk(from[i], s.to[j], s.forward, NumberAt(s, j));
    if IsTable(from[i]) {
      TableTag(from[i], s.to[j], s.forward, NumberAt(s, j));
    } else {
      PlainRecord(from, i);
      assert from[i].Record? && RecordOk(from[i], s.to[j], s.forward, NumberAt(s, j));
      FieldCopied(from, root, s, w, i, 0);
    }
  }

  lemma TableTag(o: Obj, copy: Obj, forward: seq<Forward>, n: nat)
    requires IsSearch(o) || IsDispatch(o)
    requires CopyOk(o, copy, forward, n)
    ensures copy.Record? && copy.tag == o.tag
  {
    hide Kept, ValidVec, SlotsSettled, NoSlots, SlotsMatch;
  }

  /* Tables. */

  /** The entries of a table of the old store, in order. */
  ghost function OldEntries(from: seq<Obj>, i: nat): seq<Val>
    requires StoreOk(from) && i < |from| && IsTable(from[i])
    decreases i, 33
  {
    TableKind(from, i);
    if IsSearch(from[i]) then from[i].fields[1..] else OldSlots(from, i, 0)
  }

  ghost function OldSlots(from: seq<Obj>, i: nat, k: nat): seq<Val>
    requires StoreOk(from) && i < |from| && IsDispatch(from[i]) && k <= 32
    decreases i, 32 - k
  {
    if k == 32 then []
    else
      SlotTarget(from, i, k);
      match Get(AsVec(from[i].fields), k) {
        case None => []
        case Some(v) => OldEntries(from, v.i)
      } + OldSlots(from, i, k + 1)
  }

  lemma TableKind(from: seq<Obj>, i: nat)
    requires StoreOk(from) && i < |from| && IsTable(from[i])
    ensures if from[i].tag == TAB_SEARCH_TAG then IsSearch(from[i]) else IsDispatch(from[i])
  {
    hide ValidVec, NoSharing;
    assert NodeOk(from, from[i]);
  }

  lemma SlotTarget(from: seq<Obj>, i: nat, k: nat)
    requires StoreOk(from) && i < |from| && IsDispatch(from[i]) && k < 32
    ensures var slot := Get(AsVec(from[i].fields), k);
            slot.Some? ==> slot.value.Old? && slot.value.i < i && IsTable(from[slot.value.i])
  {
    hide Get, ValidVec, NoSharing;
    assert NodeOk(from, from[i]) && PointsInside(from[i], i, |from|);
    if Get(AsVec(from[i].fields), k).Some? {
      IndexSlot(AsVec(from[i].fields), k);
    }
  }

  /** The copy of a dispatch node has in its slots the copies of what the old one had. */
  lemma SlotCopied(from: seq<Obj>, root: Val, s: State, j: nat, k: nat)
    requires StoreOk(from) && Inv(from, root, s) && j < |s.to| && IsDispatch(from[s.src[j]]) && k < 32
    ensures IsDispatch(s.to[j])
    ensures Get(AsVec(s.to[j].fields), k) == SlotResult(from[s.src[j]], k, s.forward)
    ensures var slot := Get(AsVec(s.to[j].fields), k);
            slot.Some? ==>
              && slot.value.New? && slot.value.j < |s.to|
              && s.src[slot.value.j] < s.src[j] && IsTable(from[s.src[slot.value.j]])
              && Get(AsVec(from[s.src[j]].fields), k) == Some(Old(s.src[slot.value.j]))
  {
    hide Get, ValidVec, NoSharing, Live, Held, CountsOk, NothingLeft, Number, NoSlots;
    var i := s.src[j];
    assert CopyOk(from[i], s.to[j], s.forward, NumberAt(s, j));
    SlotTarget(from, i, k);
    var was := Get(AsVec(from[i].fields), k);
    if was.Some? {
      assert Settled(was.value, s.forward);
    }
  }

  /** The entries of a table of the new store, in order. */
  ghost function NewEntries(from: seq<Obj>, root: Val, s: State, j: nat): seq<Val>
    requires StoreOk(from) && Inv(from, root, s) && j < |s.to| && IsTable(from[s.src[j]])
    decreases s.src[j], 33
  {
    TableKind(from, s.src[j]);
    if IsSearch(from[s.src[j]]) then
      CopiedSearch(from, root, s, j);
      s.to[j].fields[1..]
    else NewSlots(from, root, s, j, 0)
  }

  ghost function NewSlots(from: seq<Obj>, root: Val, s: State, j: nat, k: nat): seq<Val>
    requires StoreOk(from) && Inv(from, root, s) && j < |s.to| && IsDispatch(from[s.src[j]]) && k <= 32
    decreases s.src[j], 32 - k
  {
    if k == 32 then []
    else
      SlotCopied(from, root, s, j, k);
      match Get(AsVec(s.to[j].fields), k) {
        case None => []
        case Some(v) => NewEntries(from, root, s, v.j)
      } + NewSlots(from, root, s, j, k + 1)
  }

  lemma CopiedSearch(from: seq<Obj>, root: Val, s: State, j: nat)
    requires Inv(from, root, s) && j < |s.to| && IsSearch(from[s.src[j]])
    ensures SearchOk(from[s.src[j]], s.to[j], s.forward) && s.to[j].fields != []
  {
    hide NoSharing, Live, Held, CountsOk, NothingLeft, Number, NoSlots, IsDispatch, Kept;
    assert CopyOk(from[s.src[j]], s.to[j], s.forward, NumberAt(s, j));
  }

  /** The entries that are reachable without the table. */
  ghost function Surviving(from: seq<Obj>, root: Val, vals: seq<Val>): seq<Val> {
    if vals == [] then []
    else
      var v := vals[|vals| - 1];
      Surviving(from, root, vals[..|vals| - 1]) + if v.Old? && !Live(from, root, v.i) then [] else [v]
  }

  function RelocatedAll(vals: seq<Val>, forward: seq<Forward>): seq<Val> {
    seq(|vals|, k requires 0 <= k < |vals| => Relocated(vals[k], forward))
  }

  lemma {:induction false} SurvivingSplit(from: seq<Obj>, root: Val, a: seq<Val>, b: seq<Val>)
    ensures Surviving(from, root, a + b) == Surviving(from, root, a) + Surviving(from, root, b)
  {
    hide Live, Held;
    if b == [] {
      assert a + b == a;
    } else {
      SurvivingSplit(from, root, a, b[..|b| - 1]);
      assert (a + b)[..|a + b| - 1] == a + b[..|b| - 1];
    }
  }

  lemma {:induction false} KeptSurvive(from: seq<Obj>, root: Val, vals: seq<Val>, forward: seq<Forward>)
    requires |forward| == |from|
    requires forall k :: 0 <= k < |vals| && vals[k].Old? ==> vals[k].i < |from| && !IsTable(from[vals[k].i])
    requires forall i: nat | i < |from| && !IsTable(from[i]) :: !forward[i].Stays? <==> Live(from, root, i)
    ensures Kept(vals, forward) == RelocatedAll(Surviving(from, root, vals), forward)
  {
    hide Live, Held, Relocated;
    if vals != [] {
      KeptSurvive(from, root, vals[..|vals| - 1], forward);
    }
  }

  /** The copy of a table has exactly those of its entries that are reachable without it, in
      their order; when there are none there is no copy. */
  lemma {:induction false} TableKeepsLive(from: seq<Obj>, root: Val, s: State, w: Val, i: nat)
    requires StoreOk(from) && RootOk(from, root) && Collected(from, root, s, w)
    requires i < |from| && IsTable(from[i]) && !s.forward[i].Stays?
    ensures s.forward[i].Moved? ==> s.forward[i].at < |s.to| && s.src[s.forward[i].at] == i
    ensures RelocatedAll(Surviving(from, root, OldEntries(from, i)), s.forward)
            == if s.forward[i].Moved? then NewEntries(from, root, s, s.forward[i].at) else []
    ensures s.forward[i].Moved? <==> Surviving(from, root, OldEntries(from, i)) != []
    decreases i, 33
  {
    hide Inv, Live, Held, StoreOk, RootOk, IsDispatch, Kept;
    TableKind(from, i);
    Backed(from, root, s, i);
    if IsSearch(from[i]) {
      SearchKeepsLive(from, root, s, w, i);
    } else {
      SlotsKeepLive(from, root, s, w, i, 0);
      MovedHasSlot(from, root, s, i);
    }
  }

  lemma Backed(from: seq<Obj>, root: Val, s: State, i: nat)
    requires Inv(from, root, s) && i < |from|
    ensures |s.forward| == |from| && |s.src| == |s.to|
    ensures s.forward[i].Moved? ==> s.forward[i].at < |s.to| && s.src[s.forward[i].at] == i
  {
    hide CopiesOk, DropsOk, OnlyLive, Number;
  }

  lemma SearchKeepsLive(from: seq<Obj>, root: Val, s: State, w: Val, i: nat)
    requires StoreOk(from) && RootOk(from, root) && Collected(from, root, s, w)
    requires i < |from| && IsSearch(from[i]) && IsTable(from[i])
    requires s.forward[i].Moved? ==> s.forward[i].at < |s.to| && s.src[s.forward[i].at] == i
    requires !s.forward[i].Stays?
    ensures RelocatedAll(Surviving(from, root, OldEntries(from, i)), s.forward)
            == if s.forward[i].Moved? then NewEntries(from, root, s, s.forward[i].at) else []
    ensures s.forward[i].Moved? <==> Surviving(from, root, OldEntries(from, i)) != []
  {
    hide Live, Held, NoSharing, CopiesOk, CountsOk, OnlyLive, IsDispatch, SlotsSettled, NoSlots, Kept;
    assert NodeOk(from, from[i]);
    LiveAreCopied(from, root, s, w);
    forall x: nat | x < |from| && !IsTable(from[x])
      ensures !s.forward[x].Stays? <==> Live(from, root, x)
    {
      PlainDropped(from, root, s, x);
    }
    KeptSurvive(from, root, from[i].fields[1..], s.forward);
    if s.forward[i].Moved? {
      CopiedSearch(from, root, s, s.forward[i].at);
    } else {
      assert NothingLeft(from[i], s.forward);
      NotBoth(from[i]);
    }
  }

  /** An index from `k` on leads somewhere in the new store. */
  ghost predicate SomeSlot(o: Obj, k: nat, forward: seq<Forward>)
    requires IsDispatch(o)
  {
    exists k': nat :: k <= k' < 32 && SlotResult(o, k', forward).Some?
  }

  lemma SomeSlotStep(o: Obj, k: nat, forward: seq<Forward>)
    requires IsDispatch(o) && k <= 32
    ensures SomeSlot(o, k, forward) <==> k < 32 && (SlotResult(o, k, forward).Some? || SomeSlot(o, k + 1, forward))
  {
    hide SlotResult, ValidVec;
  }

  lemma MovedHasSlot(from: seq<Obj>, root: Val, s: State, i: nat)
    requires Inv(from, root, s) && i < |from| && IsDispatch(from[i]) && !s.forward[i].Stays?
    ensures s.forward[i].Moved? <==> SomeSlot(from[i], 0, s.forward)
  {
    hide ValidVec, Get, Live, Held, Kept, Number, SlotsSettled, SlotResult;
    Backed(from, root, s, i);
    if s.forward[i].Moved? {
      var at := s.forward[i].at;
      assert CopyOk(from[s.src[at]], s.to[at], s.forward, NumberAt(s, at));
    } else {
      assert NothingLeft(from[i], s.forward);
    }
  }

  lemma NotBoth(o: Obj)
    requires IsSearch(o)
    ensures !IsDispatch(o)
  {
  }

  lemma {:induction false} SlotsKeepLive(from: seq<Obj>, root: Val, s: State, w: Val, i: nat, k: nat)
    requires StoreOk(from) && RootOk(from, root) && Collected(from, root, s, w)
    requires i < |from| && IsDispatch(from[i]) && IsTable(from[i]) && !s.forward[i].Stays? && k <= 32
    requires s.forward[i].Moved? ==> s.forward[i].at < |s.to| && s.src[s.forward[i].at] == i
    ensures RelocatedAll(Surviving(from, root, OldSlots(from, i, k)), s.forward)
            == if s.forward[i].Moved? then NewSlots(from, root, s, s.forward[i].at, k) else []
    ensures SomeSlot(from[i], k, s.forward) <==> Surviving(from, root, OldSlots(from, i, k)) != []
    decreases i, 32 - k
  {
    hide Inv, Live, Held, StoreOk, RootOk, ValidVec, Surviving, Get, RelocatedAll, SomeSlot;
    Backed(from, root, s, i);
    NoneSurvive(from, root, s.forward);
    SomeSlotStep(from[i], k, s.forward);
    if k < 32 {
      SlotsKeepLive(from, root, s, w, i, k + 1);
      SlotTarget(from, i, k);
      var slot := Get(AsVec(from[i].fields), k);
      var here := if slot.Some? then OldEntries(from, slot.value.i) else [];
      SurvivingSplit(from, root, here, OldSlots(from, i, k + 1));
      RelocatedSplit(Surviving(from, root, here), Surviving(from, root, OldSlots(from, i, k + 1)), s.forward);
      ChildSettled(from, root, s, i, k);
      if slot.Some? {
        TableKeepsLive(from, root, s, w, slot.value.i);
      }
      if s.forward[i].Moved? {
        SlotCopied(from, root, s, s.forward[i].at, k);
      }
    }
  }

  lemma NoneSurvive(from: seq<Obj>, root: Val, forward: seq<Forward>)
    ensures Surviving(from, root, []) == [] && RelocatedAll([], forward) == []
  {
  }

  lemma RelocatedSplit(a: seq<Val>, b: seq<Val>, forward: seq<Forward>)
    ensures RelocatedAll(a + b, forward) == RelocatedAll(a, forward) + RelocatedAll(b, forward)
  {
  }

  /** The subtables of a copied or dropped node have been copied or dropped. */
  lemma ChildSettled(from: seq<Obj>, root: Val, s: State, i: nat, k: nat)
    requires StoreOk(from) && Inv(from, root, s) && i < |from| && IsDispatch(from[i]) && k < 32 && !s.forward[i].Stays?
    ensures var slot := Get(AsVec(from[i].fields), k);
            slot.Some? ==> slot.value.Old? && Settled(slot.value, s.forward)
    ensures s.forward[i].Dropped? ==> SlotResult(from[i], k, s.forward) == None
  {
    hide Get, ValidVec, Live, Held, NoSharing, CountsOk, OnlyLive, Kept, Number;
    if s.forward[i].Moved? {
      var at := s.forward[i].at;
      assert CopyOk(from[s.src[at]], s.to[at], s.forward, NumberAt(s, at));
    } else {
      assert NothingLeft(from[i], s.forward);
    }
  }

  lemma {:induction false} HeldSettled(from: seq<Obj>, root: Val, s: State, w: Val, i: nat)
    requires StoreOk(from) && RootOk(from, root) && Collected(from, root, s, w)
    requires i < |from| && Held(from, root, i)
    ensures |s.forward| == |from| && !s.forward[i].Stays?
    decreases |from| - i
  {
    hide Inv, StoreOk, RootOk, Live, Get, AsVec;
    Backed(from, root, s, i);
    if Live(from, root, i) {
      LiveAreCopied(from, root, s, w);
    } else {
      var d :| i < d < |from| && IsChild(from, d, i) && Held(from, root, d);
      HeldSettled(from, root, s, w, d);
      var k :| Child(from, d, k, i);
      ChildSettled(from, root, s, d, k);
    }
  }

  /** A table node is copied exactly if it is reachable, through other table nodes perhaps, and
      some of its entries are reachable without it. */
  lemma LiveTablesAreCopied(from: seq<Obj>, root: Val, s: State, w: Val, i: nat)
    requires StoreOk(from) && RootOk(from, root) && Collected(from, root, s, w)
    requires i < |from| && IsTable(from[i])
    ensures |s.forward| == |from|
    ensures !s.forward[i].Stays? <==> Held(from, root, i)
    ensures s.forward[i].Moved? <==> Held(from, root, i) && Surviving(from, root, OldEntries(from, i)) != []
  {
    hide Live, Held, CopiesOk, DropsOk, CountsOk, InOrder, StoreOk, RootOk, Surviving, OldEntries;
    if Held(from, root, i) {
      HeldSettled(from, root, s, w, i);
    }
    if !s.forward[i].Stays? {
      TableKeepsLive(from, root, s, w, i);
    }
  }

  /** A field of a record that leads to an object, and counts for reachability: not of a table node, and not the
      number of a counted record. */
  predicate Points(from: seq<Obj>, i: nat, k: nat, c: nat) {
    && i < |from| && from[i].Record? && k < |from[i].fields| && from[i].fields[k] == Old(c)
    && from[i].tag != 0x7D && from[i].tag != 0x7E && (k > 0 || from[i].tag < 64 || from[i].tag >= 80)
  }

  ghost predicate Closed(from: seq<Obj>, region: set<nat>) {
    forall i: nat, k: nat, c: nat :: i in region && Points(from, i, k, c) ==> c in region
  }

  /** What is alive is the least set with the root that such fields do not lead out of. */
  lemma LiveIsLeast(from: seq<Obj>, root: Val)
    requires StoreOk(from) && RootOk(from, root)
    ensures root.Old? ==> Live(from, root, root.i)
    ensures forall i: nat, k: nat, c: nat ::
      i < |from| && Live(from, root, i) && Points(from, i, k, c) ==> Live(from, root, c)
    ensures forall region :: (root.Old? ==> root.i in region) && Closed(from, region) ==>
      forall i :: Live(from, root, i) ==> i in region
  {
    hide Live, StoreOk, RootOk;
    if root.Old? {
      LiveRoot(from, root);
    }
    forall i: nat, k: nat, c: nat | i < |from| && Live(from, root, i) && Points(from, i, k, c)
      ensures Live(from, root, c)
    {
      LiveStep(from, root, i, k);
    }
    forall region: set<nat> | (root.Old? ==> root.i in region) && Closed(from, region)
      ensures forall i :: Live(from, root, i) ==> i in region
    {
      forall i: nat, k: nat
        | i in region && i < |from| && Followed(from[i], k) && from[i].fields[k].Old?
        ensures from[i].fields[k].i in region
      {
        assert Points(from, i, k, from[i].fields[k].i);
      }
      LiveLeast(from, root, region);
    }
  }
}
