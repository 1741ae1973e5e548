/** The copying garbage collector. */
module Collectors {
  import opened Basics
  import opened Mapvecs
  import opened GcStores
  import opened GcStates
  import opened GcTables
  import opened GcDelays

  lemma {:induction false} KeptPrefix(vals: seq<Val>, k: nat, forward: seq<Forward>)
    requires k < |vals|
    ensures Kept(vals[..k + 1], forward)
            == Kept(vals[..k], forward) + if Settled(vals[k], forward) then [Relocated(vals[k], forward)] else []
  {
    assert vals[..k + 1][..k] == vals[..k];
  }

  lemma DispatchStart(from: seq<Obj>, forward: seq<Forward>, i: nat)
    requires |forward| == |from| && i < |from| && forward[i].Stays? && IsDispatch(from[i])
    requires WholeIn(from, forward, i + 1)
    ensures WholeIn(from, forward, i) && Under(from, forward, forward, i) && ResultsOk(from[i], [], forward)
    ensures forall k: nat, c: nat :: Child(from, i, k, c) && c < |from| ==> forward[c].Stays?
    ensures from[i].fields[0].n < Pow2(30)
    ensures CountBelow(from[i].fields[0].n + ALWAYS, 0) == 0
  {
    hide Child, Pow2;
  }

  lemma ResultNext(o: Obj, results: seq<Option<Val>>, forward: seq<Forward>, result: Option<Val>)
    requires IsDispatch(o) && |results| < 32 && ResultsOk(o, results, forward)
    requires ResultAt(o, |results|, result, forward)
    ensures ResultsOk(o, results + [result], forward)
  {
    hide ResultAt, IsDispatch;
    forall k: nat | k < |results| + 1
      ensures ResultAt(o, k, (results + [result])[k], forward)
    {
      if k < |results| {
        assert ResultAt(o, k, results[k], forward);
      }
    }
  }

  lemma PlainKeepsWhole(from: seq<Obj>, was: seq<Forward>, now: seq<Forward>, i: nat)
    requires |was| == |now| == |from| && i < |from| && WholeIn(from, was, |from|) && Later(was, now)
    requires now == was[i := now[i]] && forall d: nat, k: nat :: !Child(from, d, k, i)
    ensures WholeIn(from, now, |from|)
  {
    hide Child;
  }

  /** What copying adds in the last phase are copies of tables. */
  lemma AppendedLeft(from: seq<Obj>, root: Val, s: State, s': State)
    requires StoreOk(from) && Inv(from, root, s) && Inv(from, root, s')
    requires TablesOnly(from, s.forward, s'.forward) && Extends(s.to, s'.to)
    requires forall x :: 0 <= x < |s.to| ==> TablesLeft(from, s.to[x])
    ensures forall x :: 0 <= x < |s'.to| ==> TablesLeft(from, s'.to[x])
  {
    hide CopyOk, NothingLeft, Live, Held, Number, NoSharing, IsDispatch;
    forall x | 0 <= x < |s'.to|
      ensures TablesLeft(from, s'.to[x])
    {
      if x < |s.to| {
        assert s'.to[x] == s'.to[..|s.to|][x] == s.to[x];
      } else {
        var i := s'.src[x];
        assert s'.forward[i] == Moved(x);
        assert IsTable(from[i]);
        assert NodeOk(from, from[i]);
        assert CopyOk(from[i], s'.to[x], s'.forward, NumberAt(s', x));
        TableCopyClean(from[i], s'.to[x], s'.forward, NumberAt(s', x));
      }
    }
  }

  lemma FixReady(from: seq<Obj>, s: State, j: nat, k: nat, phase: nat)
    requires j < |s.to| && s.to[j].Record? && k < |s.to[j].fields|
    requires phase != 0 ==> forall x :: 0 <= x < |s.to| ==> TablesLeft(from, s.to[x])
    ensures var v := Relocated(s.to[j].fields[k], s.forward);
            phase != 0 ==> forall x :: 0 <= x < |s.to| ==> TablesLeft(from, Fixing(s, j, k, v).to[x])
  {
  }

  /** What copying a child does, seen from its parent. */
  lemma ChildCopied(from: seq<Obj>, was: seq<Forward>, now: seq<Forward>, i: nat, b: nat, c: nat)
    requires |was| == |now| == |from| && Later(was, now) && Grown(from, was, now, c) && NoSharing(from)
    requires c < i < |from| && Child(from, i, b, c) && WholeIn(from, was, i)
    ensures WholeIn(from, now, i) && Under(from, was, now, i) && now[i] == was[i]
    ensures forall k: nat, x: nat :: Child(from, i, k, x) && k != b && x < |from| ==> now[x] == was[x]
  {
    hide Child, WholeIn;
    assert IsChild(from, i, c);
    forall d: nat, k: nat | Child(from, d, k, c)
      ensures d >= i
    {
      assert IsChild(from, d, c);
      OneParent(from, d, i, c);
    }
    WholeThen(from, was, now, c, i);
    forall k: nat, x: nat | Child(from, i, k, x) && k != b && x < |from|
      ensures now[x] == was[x]
    {
      SiblingStays(from, was, now, i, b, c, k, x);
    }
    assert Later(was, was) && Under(from, was, was, i);
    UnderThen(from, was, was, now, i, c);
  }

  class Collector {
    const from: seq<Obj>
    const root: Val
    var forward: seq<Forward>
    var to: seq<Obj>
    var counts: seq<nat>
    ghost var src: seq<nat>
    var delayed: seq<nat>
    var phase: nat

    ghost function S(): State
      reads this
    {
      State(forward, to, counts, src)
    }

    ghost predicate Valid()
      reads this
    {
      && StoreOk(from) && RootOk(from, root) && Shape(from, S()) && Inv(from, root, S()) && |delayed| <= MAX_DELAYED
      && (phase == 0 ==> NoTables(from, S()))
    }

    predicate Alive(v: Val)
      requires v.Old? ==> v.i < |from| == |forward|
      reads this
    {
      !v.Old? || !forward[v.i].Stays? || (IsTable(from[v.i]) && v.i in delayed)
    }

    /** Puts a copy at the end of the new store and forwards the old object to it. */
    method Place(i: nat, copy: Obj)
      requires Valid() && i < |from| && forward[i].Stays?
      requires if IsTable(from[i]) then phase != 0 && Held(from, root, i)
               else NoTables(from, S()) && Live(from, root, i)
      requires !Counted(copy) || copy.fields == []
      requires CopyOk(from[i], copy, forward[i := Moved(|to|)], if copy.Record? then Number(to, copy.tag) else 0)
      modifies this`forward, this`to, this`src
      ensures Valid() && S() == old(Moving(S(), i, copy, counts))
    {
      hide CopyOk, Number, Live, Held, NodeOk, NoSharing, OneToOne, CopiesOk, DropsOk, CountsOk, OnlyLive;
      MoveKeeps(from, root, S(), i, copy);
      forward := forward[i := Moved(|to|)];
      to := to + [copy];
      src := src + [i];
    }

    /** The elements of a search node that are kept: its hash, and the entries that are alive. */
    method KeepLive(i: nat) returns (vals: seq<Val>)
      requires Valid() && phase != 0 && i < |from| && IsSearch(from[i])
      ensures vals == [from[i].fields[0]] + Kept(from[i].fields[1..], forward)
    {
      hide Inv, NoSharing, IsDispatch;
      var o := from[i];
      var k := 1;
      vals := [o.fields[0]];
      assert NodeOk(from, o);
      while k < |o.fields|
        invariant 1 <= k <= |o.fields|
        invariant vals == [o.fields[0]] + Kept(o.fields[1..][..k - 1], forward)
      {
        var x := o.fields[k];
        assert o.fields[1..][k - 1] == x;
        KeptPrefix(o.fields[1..], k - 1, forward);
        if Alive(x) {
          vals := vals + [Relocated(x, forward)];
        }
        k := k + 1;
      }
      assert o.fields[1..][..k - 1] == o.fields[1..];
    }

    /** A search node keeps the entries that are alive. */
    method TabCopySearch(i: nat)
      requires Valid() && phase != 0 && i < |from| && forward[i].Stays? && IsSearch(from[i]) && Held(from, root, i)
      modifies this`forward, this`to, this`src
      ensures Valid() && !forward[i].Stays?
      ensures forward == old(forward)[i := forward[i]] && Extends(old(to), to)
    {
      hide Number, Live, Held, NoSharing, OneToOne, CopiesOk, DropsOk, CountsOk, OnlyLive, IsDispatch;
      var o := from[i];
      var vals := KeepLive(i);
      assert NodeOk(from, o);
      ghost var moved, dropped := forward[i := Moved(|to|)], forward[i := Dropped];
      SearchStable(from, o, forward, moved);
      SearchStable(from, o, forward, dropped);
      if |vals| > 1 {
        Place(i, Record(TAB_SEARCH_TAG, vals));
      } else {
        DropKeeps(from, root, S(), i);
        forward := forward[i := Dropped];
      }
    }

    /** Copies the subtable in a slot of dispatch node `i`. */
    method CopyChild(i: nat, b: nat, x: Val) returns (y: Val)
      requires Valid() && phase != 0 && i < |from| && forward[i].Stays? && WholeIn(from, forward, i) && b < 32
      requires Held(from, root, i)
      requires x == Null || (x.Old? && x.i < i && IsTable(from[x.i]) && Child(from, i, b, x.i) && forward[x.i].Stays?)
      modifies this`forward, this`to, this`src
      ensures Valid() && forward[i].Stays? && WholeIn(from, forward, i)
      ensures y == Relocated(x, forward) && Settled(x, forward)
      ensures Later(old(forward), forward) && TablesOnly(from, old(forward), forward) && Extends(old(to), to)
      ensures Under(from, old(forward), forward, i)
      ensures forall k: nat, c: nat :: Child(from, i, k, c) && k != b && c < |from| ==> forward[c] == old(forward[c])
      decreases i, 0
    {
      hide Inv, NodeOk, Child, RootOk, NoTables, Grown;
      y := Null;
      ghost var was := forward;
      if x != Null {
        HeldChild(from, root, i, b, x.i);
        y := TabCopy(x.i);
        assert IsChild(from, i, x.i);
        ChildCopied(from, was, forward, i, b, x.i);
      }
    }

    /** Stores the packed dispatch node, unless it is empty. */
    method FinishDispatch(i: nat, full: nat, m: nat, vals: seq<Val>, ghost results: seq<Option<Val>>,
                          ghost was: seq<Forward>)
      requires Valid() && phase != 0 && i < |from| && forward[i].Stays? && IsDispatch(from[i]) && Held(from, root, i)
      requires |results| == 32 && Packed(full, m, vals, results) && ResultsOk(from[i], results, forward)
      requires |was| == |from| && Later(was, forward) && TablesOnly(from, was, forward) && Under(from, was, forward, i)
      modifies this`forward, this`to, this`src
      ensures Valid() && !forward[i].Stays?
      ensures Later(was, forward) && TablesOnly(from, was, forward) && Extends(old(to), to)
      ensures Grown(from, was, forward, i)
    {
      hide Inv, Child, RootOk, NoTables, ParentToo, Packed, ResultsOk, ResultAt, Under, Grown, NodeOk, ValidVec;
      hide DispatchOk, SlotsSettled, NoSlots;
      var o := from[i];
      ghost var mid := forward;
      PackedEmpty(full, m, vals, results);
      ghost var next := forward[i := if m == 0 && vals[0] == Null && vals[1] == Null then Dropped else Moved(|to|)];
      ResultsStable(o, results, mid, next);
      PackedDispatch(o, full, m, vals, results, next);
      if m == 0 && vals[0] == Null && vals[1] == Null {
        DropKeeps(from, root, S(), i);
        forward := forward[i := Dropped];
      } else {
        Place(i, Record(TAB_DISPATCH_TAG, [Int(m)] + vals));
      }
      assert was[i].Stays?;
      UnderGrown(from, was, mid, forward, i);
    }

    /** A dispatch node keeps the subtables of which something is left. */
    method TabCopyDispatch(i: nat)
      requires Valid() && phase != 0 && i < |from| && forward[i].Stays? && IsDispatch(from[i]) && Held(from, root, i)
      requires WholeIn(from, forward, i + 1)
      modifies this`forward, this`to, this`src
      ensures Valid() && !forward[i].Stays?
      ensures Later(old(forward), forward) && TablesOnly(from, old(forward), forward) && Extends(old(to), to)
      ensures Grown(from, old(forward), forward, i)
      decreases i, 1
    {
      hide Inv, Child, RootOk, NoTables, ParentToo, ValidVec, Packed, ResultsOk, ResultAt, Bit, CountBelow, Pow2, Get;
      hide WholeIn, Under, Grown, NodeOk;
      var o := from[i];
      var full := o.fields[0].n + ALWAYS;
      var m: nat, pos: nat, b: nat := o.fields[0].n, 1, 0;
      var vals: seq<Val> := [];
      ghost var results: seq<Option<Val>> := [];
      ghost var was, to0 := forward, to;
      DispatchStart(from, forward, i);
      PackNothing(full, m);
      while b < 32
        modifies this`forward, this`to, this`src
        invariant b <= 32 && |results| == b && Packed(full, m, vals, results) && pos == 1 + CountBelow(full, b)
        invariant Valid() && forward[i].Stays? && WholeIn(from, forward, i)
        invariant Later(was, forward) && TablesOnly(from, was, forward) && Extends(to0, to)
        invariant Under(from, was, forward, i)
        invariant ResultsOk(o, results, forward)
        invariant forall k: nat, c: nat :: Child(from, i, k, c) && b <= k && c < |from| ==> forward[c].Stays?
      {
        SlotField(from, i, b);
        CountStep(full, b);
        if Bit(full, b) {
          var x := o.fields[pos];
          pos := pos + 1;
          ghost var mid := forward;
          var y := CopyChild(i, b, x);
          UnderUnder(from, was, mid, forward, i);
          ResultsStable(o, results, mid, forward);
          ResultHere(o, b, x, forward);
          ResultNext(o, results, forward, AsSlot(y));
          if y == Null && b < 30 {
            PackClear(full, m, vals, results);
            m := m - Pow2(b);
          } else {
            PackValue(full, m, vals, results, y);
            vals := vals + [y];
          }
          results := results + [AsSlot(y)];
        } else {
          PackSkip(full, m, vals, results);
          ResultHere(o, b, Null, forward);
          ResultNext(o, results, forward, None);
          results := results + [None];
        }
        b := b + 1;
      }
      FinishDispatch(i, full, m, vals, results, was);
    }

    method TabCopy(i: nat) returns (w: Val)
      requires Valid() && phase != 0 && i < |from| && forward[i].Stays? && IsTable(from[i]) && Held(from, root, i)
      requires WholeIn(from, forward, i + 1)
      modifies this`forward, this`to, this`src
      ensures Valid() && !forward[i].Stays? && w == Relocated(Old(i), forward)
      ensures Later(old(forward), forward) && TablesOnly(from, old(forward), forward) && Extends(old(to), to)
      ensures Grown(from, old(forward), forward, i)
      decreases i, 2
    {
      hide Inv, Child, RootOk, NoTables, ParentToo, ValidVec;
      assert NodeOk(from, from[i]);
      if from[i].tag == TAB_SEARCH_TAG {
        TabCopySearch(i);
      } else {
        TabCopyDispatch(i);
      }
      w := Relocated(Old(i), forward);
    }

    /** Copies an object as it is, but gives a counted one its new number. */
    method CopyObject(i: nat)
      requires Valid() && phase == 0 && i < |from| && forward[i].Stays? && !IsTable(from[i]) && Live(from, root, i)
      modifies this`forward, this`to, this`counts, this`src
      ensures Valid() && forward == old(forward)[i := Moved(|old(to)|)] && Extends(old(to), to)
    {
      hide Live, Held, StoreOk, RootOk, Number, OneToOne, CopiesOk, DropsOk, OnlyLive, InOrder;
      var o := from[i];
      PlainRecord(from, i);
      ghost var s, next := S(), forward[i := Moved(|to|)];
      var copy := o;
      if o.Record? {
        var fields: seq<Val> := [];
        var k := 0;
        ghost var counts0 := counts;
        while k < |o.fields|
          modifies this`counts
          invariant k == |fields| <= |o.fields|
          invariant |counts| == 16 && counts == if k > 0 then Counting(counts0, o) else counts0
          invariant forall x :: 0 <= x < k ==> FieldOk(o, x, fields[x], next, Number(to, o.tag))
        {
          var val := o.fields[k];
          if k == 0 && 64 <= o.tag < 80 {
            val := Int(counts[o.tag - 64]);
            counts := counts[o.tag - 64 := counts[o.tag - 64] + 1];
          }
          fields := fields + [val];
          k := k + 1;
        }
        copy := Record(o.tag, fields);
        assert RecordOk(o, copy, next, Number(to, o.tag));
      }
      MoveKeeps(from, root, s, i, copy);
      forward := forward[i := Moved(|to|)];
      to := to + [copy];
      src := src + [i];
    }

    /** Copies what a value points to, unless that has been done, or is a table and has to
        wait; the result is what the value is in the new store. */
    method Copy(v: Val) returns (ok: bool, w: Val)
      requires Valid() && WholeIn(from, forward, |from|)
      requires v.Old? ==> v.i < |from| && Live(from, root, v.i) && forall d: nat, k: nat :: !Child(from, d, k, v.i)
      requires v.Old? && phase != 0 ==> IsTable(from[v.i])
      modifies this`forward, this`to, this`counts, this`src, this`delayed
      ensures Valid() && WholeIn(from, forward, |from|)
      ensures w == Relocated(v, forward)
      ensures ok && w.Old? ==> phase == 0 && IsTable(from[v.i])
      ensures Later(old(forward), forward) && Extends(old(to), to)
      ensures phase != 0 ==> TablesOnly(from, old(forward), forward)
      ensures |delayed| == old(|delayed|) + if ok && phase == 0 && Waits(from, v) then 1 else 0
      ensures !ok ==> phase == 0 && |delayed| == MAX_DELAYED && Waits(from, v)
    {
      hide Inv, Live, Held, Child, NoTables, ParentToo, NodeOk, RootOk, NoSharing;
      ok, w := true, v;
      if v.Old? {
        if phase == 0 && IsTable(from[v.i]) {
          TableStays(from, root, S(), v.i);
        }
        if forward[v.i].Moved? {
          w := New(forward[v.i].at);
        } else if forward[v.i].Dropped? {
          w := Null;
        } else if phase == 0 && IsTable(from[v.i]) {
          if |delayed| >= MAX_DELAYED {
            ok := false;
          } else {
            delayed := delayed + [v.i];
          }
        } else if IsTable(from[v.i]) {
          ghost var was := forward;
          HeldLive(from, root, v.i);
          w := TabCopy(v.i);
          WholeThen(from, was, forward, v.i, |from|);
        } else {
          ghost var was := forward;
          CopyObject(v.i);
          w := New(forward[v.i].at);
          PlainKeepsWhole(from, was, forward, v.i);
        }
      }
    }

    /** In the last phase only tables are still to be copied. */
    ghost predicate Ready()
      reads this
    {
      phase != 0 ==> forall x :: 0 <= x < |to| ==> TablesLeft(from, to[x])
    }

    /** What a field may be after a phase. */
    predicate Done(v: Val)
      reads this`phase
    {
      v.Old? ==> phase == 0 && v.i < |from| && IsTable(from[v.i])
    }

    predicate DoneAt(o: Obj, k: nat)
      reads this`phase
    {
      o.Record? && k < |o.fields| && Done(o.fields[k])
    }

    predicate Scanned(o: Obj)
      reads this`phase
    {
      o.Record? ==> forall k :: 0 <= k < |o.fields| ==> Done(o.fields[k])
    }

    ghost predicate IsSource(j: nat, o: Obj)
      reads this
    {
      j < |src| && src[j] < |from| && from[src[j]] == o
    }

    /** Copies what one field of a new object points to. */
    method ScanField(j: nat, k: nat, ghost o: Obj) returns (ok: bool)
      requires Valid() && WholeIn(from, forward, |from|) && Ready() && j < |to|
      requires to[j].Record? && k < |to[j].fields| && IsSource(j, o) && (phase == 0 ==> o.Record? && k < |o.fields|)
      modifies this`forward, this`to, this`counts, this`src, this`delayed
      ensures Valid() && WholeIn(from, forward, |from|) && Ready() && Later(old(forward), forward)
      ensures |to| >= |old(to)| && forall x :: 0 <= x < |old(to)| && x != j ==> to[x] == old(to[x])
      ensures SameBut(old(to[j]), to[j], k)
      ensures ok ==> DoneAt(to[j], k)
      ensures |delayed| == old(|delayed|) + if phase == 0 && ok then FieldWait(from, o, k) else 0
      ensures !ok ==> phase == 0 && |delayed| == MAX_DELAYED && FieldWait(from, o, k) == 1
    {
      hide Inv, Live, Held, Child, NodeOk, RootOk, StoreOk, WholeIn, FieldWait, TablesOnly, Later;
      NoLargerYet();
      var v := to[j].fields[k];
      ghost var s := S();
      if phase == 0 {
        FieldWaitsAlike(from, root, s, j, k);
      }
      if v.Old? {
        OldField(from, root, s, j, k);
      }
      var w;
      ok, w := Copy(v);
      if phase != 0 {
        AppendedLeft(from, root, s, S());
      }
      ExtendsAt(s.to, to);
      if ok {
        Fix(j, k, w);
      }
    }

    /** Puts the new value of a field. */
    method Fix(j: nat, k: nat, w: Val)
      requires Valid() && Ready() && j < |to| && to[j].Record? && k < |to[j].fields|
      requires w == Relocated(to[j].fields[k], forward)
      modifies this`to
      ensures Valid() && Ready() && to == old(to)[j := Record(old(to)[j].tag, old(to)[j].fields[k := w])]
    {
      hide Inv, StoreOk, RootOk, TablesLeft, Relocated;
      ghost var s := S();
      FixKeeps(from, root, s, j, k);
      FixReady(from, s, j, k, phase);
      to := to[j := Record(to[j].tag, to[j].fields[k := w])];
      assert S() == Fixing(s, j, k, w);
    }

    /** Copies what the fields of a new object point to. */
    method ScanObject(j: nat) returns (ok: bool)
      requires Valid() && WholeIn(from, forward, |from|) && Ready() && j < |to|
      modifies this`forward, this`to, this`counts, this`src, this`delayed
      ensures Valid() && WholeIn(from, forward, |from|) && Ready() && Later(old(forward), forward)
      ensures |to| >= |old(to)| && forall x :: 0 <= x < |old(to)| && x != j ==> to[x] == old(to[x])
      ensures ok ==> Scanned(to[j])
      ensures old(src[j]) < |from|
      ensures phase != 0 ==> ok && |delayed| == old(|delayed|)
      ensures phase == 0 && ok ==> |delayed| == old(|delayed|) + ObjWaits(from, from[old(src[j])])
      ensures !ok ==> old(|delayed|) + ObjWaits(from, from[old(src[j])]) > MAX_DELAYED
    {
      hide Inv, Live, Held, Child, NodeOk, RootOk, StoreOk, WholeIn, FieldWait;
      ok := true;
      NoLargerYet();
      ghost var start, o, n := S(), from[src[j]], if to[j].Record? then |to[j].fields| else 0;
      if phase == 0 {
        SameShape(from, root, start, j);
      }
      if to[j].Blob? {
        return;
      }
      var k := 0;
      while k < |to[j].fields|
        modifies this`forward, this`to, this`counts, this`src, this`delayed
        invariant Valid() && WholeIn(from, forward, |from|) && Ready() && Later(start.forward, forward)
        invariant |to| >= |start.to| && to[j].Record? && |to[j].fields| == n && k <= n
        invariant forall x :: 0 <= x < |start.to| && x != j ==> to[x] == start.to[x]
        invariant forall x :: 0 <= x < k ==> Done(to[j].fields[x])
        invariant if phase != 0 then |delayed| == old(|delayed|)
                  else o.Record? && |o.fields| == n && |delayed| == old(|delayed|) + FieldWaits(from, o, k)
        decreases n - k
      {
        SrcKept(from, root, start, S());
        assert src[j] == start.src[j];
        if phase == 0 {
          FieldWaitsMono(from, o, k + 1, n);
        }
        ok := ScanField(j, k, o);
        if !ok {
          return;
        }
        k := k + 1;
      }
    }

    /** Scans the new store, which grows meanwhile. */
    method Scan() returns (ok: bool)
      requires Valid() && WholeIn(from, forward, |from|) && Ready()
      modifies this`forward, this`to, this`counts, this`src, this`delayed
      ensures Valid() && WholeIn(from, forward, |from|) && Later(old(forward), forward)
      ensures ok ==> forall x :: 0 <= x < |to| ==> Scanned(to[x])
      ensures SrcInside(from, src)
      ensures phase != 0 ==> ok && |delayed| == old(|delayed|)
      ensures phase == 0 && ok ==> |delayed| == old(|delayed|) + SrcWaits(from, src)
      ensures !ok ==> old(|delayed|) + SrcWaits(from, src) > MAX_DELAYED
    {
      hide Inv, Live, Held, Child, NodeOk, RootOk, StoreOk, WholeIn, TablesLeft, Scanned, ObjWaits;
      ok := true;
      ghost var was, delayed0 := forward, delayed;
      var j := 0;
      NoLargerYet();
      while j < |to|
        modifies this`forward, this`to, this`counts, this`src, this`delayed
        invariant Valid() && WholeIn(from, forward, |from|) && Ready() && Later(was, forward)
        invariant j <= |to| <= |from|
        invariant forall x :: 0 <= x < j ==> Scanned(to[x])
        invariant SrcInside(from, src) && |src| == |to|
        invariant |delayed| == |delayed0| + if phase == 0 then SrcWaits(from, src[..j]) else 0
        decreases |from| - j
      {
        ghost var s := S();
        ok := ScanObject(j);
        NoLargerYet();
        SrcKept(from, root, s, S());
        SrcWaitsNext(from, src, j);
        SrcWaitsMono(from, src, j + 1);
        assert src[..j] == s.src[..j] && src[j] == s.src[j];
        if !ok {
          return;
        }
        j := j + 1;
      }
      assert src[..j] == src;
    }

    /** In the first phase tables stay. */
    lemma TableWaits(i: nat)
      requires Valid() && phase == 0 && i < |from| && IsTable(from[i])
      ensures forward[i].Stays?
    {
      hide CopyOk, NothingLeft, Live, Held, Number, StoreOk;
    }

    lemma NoLargerYet()
      requires Valid()
      ensures |src| == |to| <= |from| && SrcInside(from, src)
    {
      NoLarger(from, S());
    }

    /** Copies what is to be copied from the root on; in the last phase nothing is left that
        points into the old store. */
    method CopyPhase(r: Val, p: nat) returns (ok: bool, w: Val)
      requires Valid() && WholeIn(from, forward, |from|) && (p == 0 ==> phase == 0)
      requires r == Relocated(root, forward) && (p != 0 && r.Old? ==> IsTable(from[r.i]))
      requires p != 0 ==> forall x :: 0 <= x < |to| ==> TablesLeft(from, to[x])
      modifies this
      ensures Valid() && WholeIn(from, forward, |from|) && phase == p
      ensures ok ==> w == Relocated(root, forward) && (forall x :: 0 <= x < |to| ==> Scanned(to[x])) && Done(w)
      ensures SrcInside(from, src)
      ensures p != 0 ==> ok && |delayed| == old(|delayed|)
      ensures p == 0 && ok ==> |delayed| == old(|delayed|) + RootWaits(from, r) + SrcWaits(from, src)
      ensures !ok ==> old(|delayed|) + RootWaits(from, r) + SrcWaits(from, src) > MAX_DELAYED
    {
      hide Inv, Child, NodeOk, StoreOk, WholeIn, TablesLeft, Live, Held, Scanned;
      phase := p;
      if r.Old? {
        LiveRoot(from, root);
      }
      ghost var s := S();
      ok, w := Copy(r);
      NoLargerYet();
      if ok {
        if phase != 0 {
          AppendedLeft(from, root, s, S());
        }
        ok := Scan();
        if w.Old? {
          TableWaits(w.i);
        }
      }
    }

    constructor (from: seq<Obj>, root: Val)
      requires StoreOk(from) && RootOk(from, root)
      ensures this.from == from && this.root == root && Valid() && WholeIn(from, forward, |from|)
      ensures to == [] && phase == 0 && delayed == [] && root == Relocated(root, forward)
    {
      this.from := from;
      this.root := root;
      forward := seq(|from|, _ => Stays);
      to := [];
      counts := seq(16, _ => 0);
      src := [];
      delayed := [];
      phase := 0;
    }

    /** Collects, unless there are too many references to tables. */
    method Collect() returns (ok: bool, w: Val)
      requires Valid() && WholeIn(from, forward, |from|) && to == [] && phase == 0 && root == Relocated(root, forward)
      requires delayed == []
      modifies this
      ensures ok <==> TableRefs(from, root) <= 1024
      ensures ok ==> Collected(from, root, S(), w)
    {
      hide Inv, Child, NodeOk, StoreOk, WholeIn, Live, Held, SetWaits, SrcWaits;
      ok, w := CopyPhase(root, 0);
      CopiedRefs(from, root, S());
      if ok {
        assert forall x :: 0 <= x < |to| ==> Scanned(to[x]);
        AllRefs(from, root, S());
        ok, w := CopyPhase(w, 2);
        assert forall x :: 0 <= x < |to| ==> Scanned(to[x]);
      }
    }
  }

  /** At most one field has changed. */
  predicate SameBut(was: Obj, now: Obj, k: nat) {
    && was.Record? && now.Record? && now.tag == was.tag && |now.fields| == |was.fields|
    && forall x :: 0 <= x < |now.fields| && x != k ==> now.fields[x] == was.fields[x]
  }

  lemma ExtendsAt(was: seq<Obj>, now: seq<Obj>)
    requires Extends(was, now)
    ensures |was| <= |now| && forall x :: 0 <= x < |was| ==> now[x] == was[x]
  {
    assert forall x :: 0 <= x < |was| ==> now[..|was|][x] == now[x];
  }

  predicate Extends(was: seq<Obj>, now: seq<Obj>) {
    |was| <= |now| && now[..|was|] == was
  }

  /** The new store is complete: it has nothing but what is alive and tables, and nothing
      points into the old store. */
  ghost predicate Collected(from: seq<Obj>, root: Val, s: State, w: Val) {
    && Inv(from, root, s) && w == Relocated(root, s.forward) && !w.Old?
    && forall x :: 0 <= x < |s.to| ==> Clean(s.to[x])
  }
}
