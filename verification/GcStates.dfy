/** What holds of the two stores while garbage is collected. */
module GcStates {
  import opened Basics
  import opened Mapvecs
  import opened GcStores

  /** Where the old objects went, the new store, how many objects of each counted tag it has,
      and where each of its objects came from. */
  datatype State = State(forward: seq<Forward>, to: seq<Obj>, counts: seq<nat>, src: seq<nat>)

  predicate HasNumber(o: Obj, tag: nat) {
    o.Record? && o.tag == tag && o.fields != []
  }

  /** How many objects with a tag there are. */
  function Number(to: seq<Obj>, tag: nat): nat {
    if to == [] then 0
    else Number(to[..|to| - 1], tag) + if HasNumber(to[|to| - 1], tag) then 1 else 0
  }

  /** What a value is in the new store, as far as that is known. */
  function Relocated(v: Val, forward: seq<Forward>): Val {
    if v.Old? && v.i < |forward| then
      match forward[v.i] {
        case Moved(at) => New(at)
        case Dropped => Null
        case Stays => v
      }
    else v
  }

  predicate Settled(v: Val, forward: seq<Forward>) {
    v.Old? ==> v.i < |forward| && !forward[v.i].Stays?
  }

  /* Copies of objects. */

  /** A field is as it was or relocated; the first field of a counted object is its number. */
  predicate FieldOk(o: Obj, k: nat, v: Val, forward: seq<Forward>, n: nat)
    requires o.Record? && k < |o.fields|
  {
    if k == 0 && Counted(o) then v == Int(n)
    else v == o.fields[k] || v == Relocated(o.fields[k], forward)
  }

  predicate RecordOk(o: Obj, copy: Obj, forward: seq<Forward>, n: nat)
    requires o.Record?
  {
    && copy.Record? && copy.tag == o.tag && |copy.fields| == |o.fields|
    && forall k :: 0 <= k < |o.fields| ==> FieldOk(o, k, copy.fields[k], forward, n)
  }

  /** The values of a table that are alive, in order. */
  function Kept(vals: seq<Val>, forward: seq<Forward>): seq<Val> {
    if vals == [] then []
    else
      var v := vals[|vals| - 1];
      Kept(vals[..|vals| - 1], forward) + if Settled(v, forward) then [Relocated(v, forward)] else []
  }

  predicate SearchOk(o: Obj, copy: Obj, forward: seq<Forward>)
    requires IsSearch(o)
  {
    var kept := Kept(o.fields[1..], forward);
    kept != [] && copy == Record(TAB_SEARCH_TAG, [o.fields[0]] + kept)
  }

  /** What an index of a dispatch node leads to in the new store. */
  ghost function SlotResult(o: Obj, k: nat, forward: seq<Forward>): Option<Val>
    requires IsDispatch(o) && k < 32
  {
    match Get(AsVec(o.fields), k)
    case None => None
    case Some(v) => AsSlot(Relocated(v, forward))
  }

  ghost predicate SlotsSettled(o: Obj, forward: seq<Forward>)
    requires IsDispatch(o)
  {
    forall k: nat | k < 32 ::
      var slot := Get(AsVec(o.fields), k);
      slot.Some? ==> slot.value.Old? && Settled(slot.value, forward)
  }

  ghost predicate SlotsMatch(o: Obj, copy: Obj, forward: seq<Forward>)
    requires IsDispatch(o) && IsDispatch(copy)
  {
    forall k: nat | k < 32 :: Get(AsVec(copy.fields), k) == SlotResult(o, k, forward)
  }

  ghost predicate NoSlots(o: Obj, forward: seq<Forward>)
    requires IsDispatch(o)
  {
    forall k: nat | k < 32 :: SlotResult(o, k, forward) == None
  }

  ghost predicate DispatchOk(o: Obj, copy: Obj, forward: seq<Forward>)
    requires IsDispatch(o)
  {
    SlotsSettled(o, forward) && IsDispatch(copy) && SlotsMatch(o, copy, forward) && !NoSlots(o, forward)
  }

  ghost predicate CopyOk(o: Obj, copy: Obj, forward: seq<Forward>, n: nat) {
    if o.Blob? then copy == o
    else if IsSearch(o) then SearchOk(o, copy, forward)
    else if IsDispatch(o) then DispatchOk(o, copy, forward)
    else RecordOk(o, copy, forward, n)
  }

  /** A table of which nothing is left. */
  ghost predicate NothingLeft(o: Obj, forward: seq<Forward>) {
    || (IsSearch(o) && Kept(o.fields[1..], forward) == [])
    || (IsDispatch(o) && SlotsSettled(o, forward) && NoSlots(o, forward))
  }

  /* Whole states. */

  ghost predicate Shape(from: seq<Obj>, s: State) {
    |s.forward| == |from| && |s.src| == |s.to| && |s.counts| == 16
  }

  /** New objects and moved old objects belong together one to one. */
  ghost predicate OneToOne(from: seq<Obj>, s: State)
    requires Shape(from, s)
  {
    && (forall j :: 0 <= j < |s.to| ==> s.src[j] < |from| && s.forward[s.src[j]] == Moved(j))
    && forall i :: 0 <= i < |from| && s.forward[i].Moved? ==> s.forward[i].at < |s.to| && s.src[s.forward[i].at] == i
  }

  function NumberAt(s: State, j: nat): nat
    requires j < |s.to|
  {
    if s.to[j].Record? then Number(s.to[..j], s.to[j].tag) else 0
  }

  ghost predicate CopiesOk(from: seq<Obj>, s: State)
    requires Shape(from, s) && OneToOne(from, s)
  {
    forall j :: 0 <= j < |s.to| ==> CopyOk(from[s.src[j]], s.to[j], s.forward, NumberAt(s, j))
  }

  ghost predicate DropsOk(from: seq<Obj>, s: State)
    requires Shape(from, s)
  {
    forall i :: 0 <= i < |from| && s.forward[i].Dropped? ==> NothingLeft(from[i], s.forward)
  }

  ghost predicate CountsOk(s: State)
    requires |s.counts| == 16
  {
    forall t :: 0 <= t < 16 ==> s.counts[t] == Number(s.to, 64 + t)
  }

  /** Only what is alive is moved; only tables below what is alive are moved or dropped. */
  ghost predicate OnlyLive(from: seq<Obj>, root: Val, s: State)
    requires Shape(from, s)
  {
    && (forall i :: 0 <= i < |from| && s.forward[i].Moved? && !IsTable(from[i]) ==> Live(from, root, i))
    && forall i :: 0 <= i < |from| && !s.forward[i].Stays? && IsTable(from[i]) ==> Held(from, root, i)
  }

  /** The inner nodes of a table stay as long as their parents do. */
  ghost predicate WholeIn(from: seq<Obj>, forward: seq<Forward>, bound: nat)
    requires |forward| == |from|
  {
    forall d: nat, k: nat, c: nat ::
      Child(from, d, k, c) && d < bound && c < |from| && forward[d].Stays? ==> forward[c].Stays?
  }

  /** Copies of subtables lie before the copies of their parents. */
  ghost predicate InOrder(from: seq<Obj>, s: State)
    requires Shape(from, s)
  {
    forall d: nat, k: nat, c: nat ::
      d < |from| && Child(from, d, k, c) && c < |from| && s.forward[d].Moved? && s.forward[c].Moved?
      ==> s.forward[c].at < s.forward[d].at
  }

  ghost predicate Inv(from: seq<Obj>, root: Val, s: State) {
    && Shape(from, s) && OneToOne(from, s) && CopiesOk(from, s) && DropsOk(from, s) && CountsOk(s)
    && OnlyLive(from, root, s) && InOrder(from, s)
  }

  /** Forwards are set once. */
  predicate Later(was: seq<Forward>, now: seq<Forward>) {
    |was| == |now| && forall i :: 0 <= i < |was| && !was[i].Stays? ==> now[i] == was[i]
  }

  /** Nothing but tables is moved or dropped. */
  predicate TablesOnly(from: seq<Obj>, was: seq<Forward>, now: seq<Forward>) {
    |was| == |now| == |from| && forall i :: 0 <= i < |was| && !IsTable(from[i]) ==> now[i] == was[i]
  }

  /* Copies stay right. */

  lemma {:induction false} KeptStable(from: seq<Obj>, vals: seq<Val>, was: seq<Forward>, now: seq<Forward>)
    requires TablesOnly(from, was, now)
    requires forall k :: 0 <= k < |vals| && vals[k].Old? ==> vals[k].i < |from| && !IsTable(from[vals[k].i])
    ensures Kept(vals, was) == Kept(vals, now)
  {
    if vals != [] {
      KeptStable(from, vals[..|vals| - 1], was, now);
    }
  }

  lemma SearchStable(from: seq<Obj>, o: Obj, was: seq<Forward>, now: seq<Forward>)
    requires IsSearch(o) && NodeOk(from, o) && TablesOnly(from, was, now)
    ensures Kept(o.fields[1..], was) == Kept(o.fields[1..], now)
  {
    KeptStable(from, o.fields[1..], was, now);
  }

  lemma SlotsStable(o: Obj, was: seq<Forward>, now: seq<Forward>)
    requires IsDispatch(o) && SlotsSettled(o, was) && Later(was, now)
    ensures SlotsSettled(o, now) && forall k: nat | k < 32 :: SlotResult(o, k, was) == SlotResult(o, k, now)
  {
    hide Get, AsVec, IsDispatch;
  }

  lemma CopyStable(from: seq<Obj>, o: Obj, copy: Obj, was: seq<Forward>, now: seq<Forward>, n: nat)
    requires NodeOk(from, o) && CopyOk(o, copy, was, n) && Later(was, now)
    requires IsTable(o) ==> TablesOnly(from, was, now)
    ensures CopyOk(o, copy, now, n)
  {
    hide Get, AsVec, IsDispatch, SlotsSettled, SlotResult, Kept;
    if o.Blob? {
    } else if IsSearch(o) {
      SearchStable(from, o, was, now);
    } else if IsDispatch(o) {
      SlotsStable(o, was, now);
    }
  }

  lemma DropStable(from: seq<Obj>, o: Obj, was: seq<Forward>, now: seq<Forward>)
    requires NodeOk(from, o) && NothingLeft(o, was) && Later(was, now) && TablesOnly(from, was, now)
    ensures NothingLeft(o, now)
  {
    hide Get, AsVec, ValidVec, SlotsSettled, SlotResult, Kept;
    if IsSearch(o) {
      SearchStable(from, o, was, now);
    } else {
      SlotsStable(o, was, now);
    }
  }

  /* Moving and dropping. */

  /** Object `i` has been copied to the end of the new store. */
  function Moving(s: State, i: nat, copy: Obj, counts: seq<nat>): State
    requires i < |s.forward|
  {
    State(s.forward[i := Moved(|s.to|)], s.to + [copy], counts, s.src + [i])
  }

  /** Nothing is left of table node `i`. */
  function Dropping(s: State, i: nat): State
    requires i < |s.forward|
  {
    s.(forward := s.forward[i := Dropped])
  }

  ghost predicate NoTables(from: seq<Obj>, s: State)
    requires Shape(from, s)
  {
    && (forall j :: 0 <= j < |s.src| ==> s.src[j] < |from| && !IsTable(from[s.src[j]]))
    && forall i :: 0 <= i < |from| ==> !s.forward[i].Dropped?
  }

  lemma MoveShape(from: seq<Obj>, s: State, i: nat, copy: Obj, counts: seq<nat>)
    requires Shape(from, s) && OneToOne(from, s) && i < |from| && s.forward[i].Stays? && |counts| == 16
    ensures Shape(from, Moving(s, i, copy, counts)) && OneToOne(from, Moving(s, i, copy, counts))
    ensures Later(s.forward, Moving(s, i, copy, counts).forward)
  {
  }

  lemma NumberStable(s: State, i: nat, copy: Obj, counts: seq<nat>, j: nat)
    requires i < |s.forward| && j < |s.to|
    ensures NumberAt(Moving(s, i, copy, counts), j) == NumberAt(s, j)
  {
    assert (s.to + [copy])[..j] == s.to[..j];
  }

  lemma MoveCopies(from: seq<Obj>, s: State, i: nat, copy: Obj, counts: seq<nat>)
    requires Shape(from, s) && OneToOne(from, s) && CopiesOk(from, s) && i < |from| && s.forward[i].Stays?
    requires |counts| == 16 && forall x :: 0 <= x < |from| ==> NodeOk(from, from[x])
    requires IsTable(from[i]) || NoTables(from, s)
    requires CopyOk(from[i], copy, s.forward[i := Moved(|s.to|)], if copy.Record? then Number(s.to, copy.tag) else 0)
    ensures Shape(from, Moving(s, i, copy, counts)) && OneToOne(from, Moving(s, i, copy, counts))
    ensures CopiesOk(from, Moving(s, i, copy, counts))
  {
    hide CopyOk, NodeOk, Number;
    var s' := Moving(s, i, copy, counts);
    MoveShape(from, s, i, copy, counts);
    forall j | 0 <= j < |s'.to|
      ensures CopyOk(from[s'.src[j]], s'.to[j], s'.forward, NumberAt(s', j))
    {
      if j < |s.to| {
        NumberStable(s, i, copy, counts, j);
        assert CopyOk(from[s.src[j]], s.to[j], s.forward, NumberAt(s, j));
        CopyStable(from, from[s.src[j]], s.to[j], s.forward, s'.forward, NumberAt(s, j));
      } else {
        assert s'.to[..j] == s.to;
      }
    }
  }

  lemma MoveDrops(from: seq<Obj>, s: State, i: nat, copy: Obj, counts: seq<nat>)
    requires Shape(from, s) && DropsOk(from, s) && i < |from| && s.forward[i].Stays? && |counts| == 16
    requires forall x :: 0 <= x < |from| ==> NodeOk(from, from[x])
    requires IsTable(from[i]) || NoTables(from, s)
    ensures Shape(from, Moving(s, i, copy, counts)) && DropsOk(from, Moving(s, i, copy, counts))
  {
    hide NothingLeft, NodeOk;
    var s' := Moving(s, i, copy, counts);
    forall x | 0 <= x < |from| && s'.forward[x].Dropped?
      ensures NothingLeft(from[x], s'.forward)
    {
      assert s.forward[x].Dropped?;
      DropStable(from, from[x], s.forward, s'.forward);
    }
  }

  /** What counting an object does to the counters. */
  function Counting(counts: seq<nat>, copy: Obj): seq<nat>
    requires |counts| == 16
  {
    if Counted(copy) && copy.fields != [] then counts[copy.tag - 64 := counts[copy.tag - 64] + 1] else counts
  }

  lemma MoveCounts(s: State, i: nat, copy: Obj)
    requires i < |s.forward| && |s.counts| == 16 && CountsOk(s)
    ensures CountsOk(Moving(s, i, copy, Counting(s.counts, copy)))
  {
    var s' := Moving(s, i, copy, Counting(s.counts, copy));
    assert s'.to[..|s'.to| - 1] == s.to;
  }

  lemma MoveOrder(from: seq<Obj>, s: State, i: nat, copy: Obj, counts: seq<nat>)
    requires StoreOk(from) && Shape(from, s) && OneToOne(from, s) && CopiesOk(from, s) && InOrder(from, s)
    requires i < |from| && s.forward[i].Stays? && |counts| == 16
    ensures Shape(from, Moving(s, i, copy, counts)) && InOrder(from, Moving(s, i, copy, counts))
  {
    hide CopyOk, StoreOk, Child, Number;
    var s' := Moving(s, i, copy, counts);
    forall d: nat, k: nat, c: nat
      | d < |from| && Child(from, d, k, c) && c < |from| && s'.forward[d].Moved? && s'.forward[c].Moved?
      ensures s'.forward[c].at < s'.forward[d].at
    {
      ChildBefore(from, d, k, c);
      if d != i && s.forward[d].Moved? {
        ParentSettles(from, s, d, k, c);
      }
    }
  }

  /** The subtables of a copied dispatch node have been copied or dropped before. */
  lemma ParentSettles(from: seq<Obj>, s: State, d: nat, k: nat, c: nat)
    requires Shape(from, s) && OneToOne(from, s) && CopiesOk(from, s)
    requires Child(from, d, k, c) && c < |from| && s.forward[d].Moved?
    ensures !s.forward[c].Stays?
  {
    hide Get, ValidVec, Number, NoSlots, SlotsMatch;
    var at := s.forward[d].at;
    assert CopyOk(from[s.src[at]], s.to[at], s.forward, NumberAt(s, at));
  }

  /** Moving an object that is alive, or a table, keeps everything in order. */
  lemma MoveKeeps(from: seq<Obj>, root: Val, s: State, i: nat, copy: Obj)
    requires Inv(from, root, s) && i < |from| && s.forward[i].Stays?
    requires StoreOk(from)
    requires if IsTable(from[i]) then Held(from, root, i) else NoTables(from, s) && Live(from, root, i)
    requires CopyOk(from[i], copy, s.forward[i := Moved(|s.to|)], if copy.Record? then Number(s.to, copy.tag) else 0)
    ensures Inv(from, root, Moving(s, i, copy, Counting(s.counts, copy)))
    ensures Later(s.forward, Moving(s, i, copy, Counting(s.counts, copy)).forward)
  {
    hide CopyOk, NodeOk, Number, NothingLeft, Live, Held, NoSharing, InOrder;
    var counts := Counting(s.counts, copy);
    MoveShape(from, s, i, copy, counts);
    MoveCopies(from, s, i, copy, counts);
    MoveDrops(from, s, i, copy, counts);
    MoveCounts(s, i, copy);
    MoveOrder(from, s, i, copy, counts);
  }

  lemma DropKeeps(from: seq<Obj>, root: Val, s: State, i: nat)
    requires Inv(from, root, s) && i < |from| && s.forward[i].Stays? && IsTable(from[i])
    requires StoreOk(from) && Held(from, root, i)
    requires NothingLeft(from[i], s.forward[i := Dropped])
    ensures Inv(from, root, Dropping(s, i)) && Later(s.forward, Dropping(s, i).forward)
  {
    hide CopyOk, NodeOk, Number, NothingLeft, Live, Held, NoSharing;
    var s' := Dropping(s, i);
    forall j | 0 <= j < |s'.to|
      ensures CopyOk(from[s'.src[j]], s'.to[j], s'.forward, NumberAt(s', j))
    {
      assert CopyOk(from[s.src[j]], s.to[j], s.forward, NumberAt(s, j));
      CopyStable(from, from[s.src[j]], s.to[j], s.forward, s'.forward, NumberAt(s, j));
    }
    forall x | 0 <= x < |from| && s'.forward[x].Dropped?
      ensures NothingLeft(from[x], s'.forward)
    {
      if x != i {
        assert s.forward[x].Dropped?;
        DropStable(from, from[x], s.forward, s'.forward);
      }
    }
  }

  /* Fields that still point into the old store. */

  /** No field points into the old store. */
  predicate Clean(o: Obj) {
    o.Record? ==> forall k :: 0 <= k < |o.fields| ==> !o.fields[k].Old?
  }

  /** Only tables are still pointed to. */
  predicate TablesLeft(from: seq<Obj>, o: Obj) {
    o.Record? ==>
      forall k :: 0 <= k < |o.fields| && o.fields[k].Old? ==> o.fields[k].i < |from| && IsTable(from[o.fields[k].i])
  }

  lemma {:induction false} KeptClean(vals: seq<Val>, forward: seq<Forward>)
    ensures forall k :: 0 <= k < |Kept(vals, forward)| ==> !Kept(vals, forward)[k].Old?
  {
    if vals != [] {
      KeptClean(vals[..|vals| - 1], forward);
    }
  }

  lemma TableCopyClean(o: Obj, copy: Obj, forward: seq<Forward>, n: nat)
    requires IsSearch(o) || IsDispatch(o)
    requires CopyOk(o, copy, forward, n)
    ensures copy.Record? && Clean(copy)
  {
    hide Get, ValidVec, NoSlots;
    if IsSearch(o) {
      KeptClean(o.fields[1..], forward);
    } else {
      forall p | 1 <= p < |copy.fields|
        ensures !copy.fields[p].Old?
      {
        var k := SlotIndex(AsVec(copy.fields), p - 1);
        assert Get(AsVec(copy.fields), k) == SlotResult(o, k, forward);
      }
    }
  }

  /** A field that points into the old store is a field of the original that is followed. */
  lemma OldField(from: seq<Obj>, root: Val, s: State, j: nat, k: nat)
    requires StoreOk(from) && Inv(from, root, s) && j < |s.to|
    requires s.to[j].Record? && k < |s.to[j].fields| && s.to[j].fields[k].Old?
    ensures s.src[j] < |from| && !IsTable(from[s.src[j]])
    ensures Followed(from[s.src[j]], k) && from[s.src[j]].fields[k] == s.to[j].fields[k]
    ensures s.to[j].fields[k].i < |from|
    ensures forall d: nat, b: nat :: !Child(from, d, b, s.to[j].fields[k].i)
    ensures Live(from, root, s.to[j].fields[k].i)
  {
    hide IsDispatch, SearchOk, DispatchOk, Number, Live, Held, Child;
    var o := from[s.src[j]];
    assert PointsInside(o, s.src[j], |from|) && NodeOk(from, o);
    assert CopyOk(o, s.to[j], s.forward, NumberAt(s, j));
    if IsSearch(o) || IsDispatch(o) {
      TableCopyClean(o, s.to[j], s.forward, NumberAt(s, j));
    }
    assert RecordOk(o, s.to[j], s.forward, NumberAt(s, j));
    assert FieldOk(o, k, s.to[j].fields[k], s.forward, NumberAt(s, j));
    LiveStep(from, root, s.src[j], k);
  }

  /** Field `k` of new object `j` has been changed. */
  function Fixing(s: State, j: nat, k: nat, v: Val): State
    requires j < |s.to| && s.to[j].Record? && k < |s.to[j].fields|
  {
    s.(to := s.to[j := Record(s.to[j].tag, s.to[j].fields[k := v])])
  }

  lemma {:induction false} NumberSame(to: seq<Obj>, to': seq<Obj>, tag: nat)
    requires |to| == |to'| && forall j :: 0 <= j < |to| ==> HasNumber(to[j], tag) == HasNumber(to'[j], tag)
    ensures Number(to, tag) == Number(to', tag)
  {
    if to != [] {
      NumberSame(to[..|to| - 1], to'[..|to| - 1], tag);
    }
  }

  lemma FixNumbers(s: State, j: nat, k: nat, v: Val)
    requires j < |s.to| && s.to[j].Record? && k < |s.to[j].fields|
    ensures forall tag: nat :: Number(Fixing(s, j, k, v).to, tag) == Number(s.to, tag)
    ensures forall x: nat | x < |s.to| :: NumberAt(Fixing(s, j, k, v), x) == NumberAt(s, x)
  {
    hide Number;
    var s' := Fixing(s, j, k, v);
    forall tag: nat
      ensures Number(s'.to, tag) == Number(s.to, tag)
    {
      NumberSame(s'.to, s.to, tag);
    }
    forall x: nat | x < |s.to|
      ensures NumberAt(s', x) == NumberAt(s, x)
    {
      if s.to[x].Record? {
        NumberSame(s'.to[..x], s.to[..x], s.to[x].tag);
      }
    }
  }

  /** Relocating a field keeps everything in order. */
  lemma FixKeeps(from: seq<Obj>, root: Val, s: State, j: nat, k: nat)
    requires StoreOk(from) && Inv(from, root, s) && j < |s.to|
    requires s.to[j].Record? && k < |s.to[j].fields|
    ensures Inv(from, root, Fixing(s, j, k, Relocated(s.to[j].fields[k], s.forward)))
  {
    hide Live, Held, SearchOk, DispatchOk, IsDispatch, NodeOk, NothingLeft;
    var v := Relocated(s.to[j].fields[k], s.forward);
    var s' := Fixing(s, j, k, v);
    FixNumbers(s, j, k, v);
    if s.to[j].fields[k].Old? {
      OldField(from, root, s, j, k);
      assert NodeOk(from, from[s.src[j]]);
      PlainRecord(from, s.src[j]);
    } else {
      assert s'.to[j] == s.to[j];
    }
    forall x | 0 <= x < |s'.to|
      ensures CopyOk(from[s'.src[x]], s'.to[x], s'.forward, NumberAt(s', x))
    {
      assert CopyOk(from[s.src[x]], s.to[x], s.forward, NumberAt(s, x));
    }
    hide Number;
  }

  lemma PlainRecord(from: seq<Obj>, i: nat)
    requires i < |from| && !IsTable(from[i])
    ensures !IsSearch(from[i]) && !IsDispatch(from[i])
  {
  }

  /* Sizes. */

  lemma {:induction false} Pigeons(places: seq<nat>, n: nat)
    requires forall i :: 0 <= i < |places| ==> places[i] < n
    requires Distinct(places)
    ensures |places| <= n
  {
    if places != [] {
      assert places[0] < n;
      if k :| 0 <= k < |places| && places[k] == n - 1 {
        var others := places[..k] + places[k + 1..];
        assert forall i :: 0 <= i < |others| ==> others[i] == places[if i < k then i else i + 1];
        Pigeons(others, n - 1);
      } else {
        Pigeons(places, n - 1);
      }
    }
  }

  /** Every object is copied at most once, so the new store is no larger. */
  lemma NoLarger(from: seq<Obj>, s: State)
    requires Shape(from, s) && OneToOne(from, s)
    ensures |s.to| <= |from|
  {
    Pigeons(s.src, |from|);
  }
}
