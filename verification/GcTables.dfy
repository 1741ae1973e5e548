/** Copying table nodes: packing what is left of a dispatch node into a new one, and which
    nodes this touches. */
module GcTables {
  import opened Basics
  import opened Mapvecs
  import opened GcStores
  import opened GcStates

  /** The results for the indices so far are packed into `vals`; the bits of the others are
      still those of the old map. */
  ghost predicate Packed(full: nat, m: nat, vals: seq<Val>, results: seq<Option<Val>>) {
    && |results| <= 32 && m < Pow2(30)
    && (forall k: nat | |results| <= k < 32 :: Bit(m + ALWAYS, k) == Bit(full, k))
    && |vals| == CountBelow(m + ALWAYS, |results|)
    && forall k: nat | k < |results| :: PackedAt(m, vals, k, results[k])
  }

  /** An index without its bit has no result; only the last two have a bit without one. */
  ghost predicate PackedAt(m: nat, vals: seq<Val>, k: nat, result: Option<Val>) {
    if Bit(m + ALWAYS, k)
    then
      var pos := CountBelow(m + ALWAYS, k);
      pos < |vals| && result == AsSlot(vals[pos]) && (k < 30 ==> result.Some?)
    else result == None
  }

  lemma PackNothing(full: nat, m: nat)
    requires m < Pow2(30) && full == m + ALWAYS
    ensures Packed(full, m, [], [])
  {
    hide Pow2;
  }

  /** The index has no bit. */
  lemma PackSkip(full: nat, m: nat, vals: seq<Val>, results: seq<Option<Val>>)
    requires Packed(full, m, vals, results) && |results| < 32 && !Bit(full, |results|)
    ensures Packed(full, m, vals, results + [None])
  {
    hide Pow2, Bit, CountBelow;
    CountStep(m + ALWAYS, |results|);
  }

  /** The index has a bit and a result, or keeps its place without one. */
  lemma PackValue(full: nat, m: nat, vals: seq<Val>, results: seq<Option<Val>>, v: Val)
    requires Packed(full, m, vals, results) && |results| < 32 && Bit(full, |results|)
    requires v != Null || |results| >= 30
    ensures Packed(full, m, vals + [v], results + [AsSlot(v)])
  {
    hide Pow2, Bit, CountBelow;
    var n := |results|;
    CountStep(m + ALWAYS, n);
    forall k: nat | k < n + 1
      ensures PackedAt(m, vals + [v], k, (results + [AsSlot(v)])[k])
    {
      if k < n {
        assert PackedAt(m, vals, k, results[k]);
      }
    }
  }

  lemma {:induction false} CountStep(x: nat, i: nat)
    ensures CountBelow(x, i + 1) == CountBelow(x, i) + if Bit(x, i) then 1 else 0
  {
    if i > 0 {
      CountStep(x / 2, i - 1);
    }
  }

  /** The bit of an index without a result is cleared. */
  lemma PackClear(full: nat, m: nat, vals: seq<Val>, results: seq<Option<Val>>)
    requires Packed(full, m, vals, results) && |results| < 30 && Bit(full, |results|)
    ensures m >= Pow2(|results|) && Packed(full, m - Pow2(|results|), vals, results + [None])
  {
    hide Pow2, Bit, CountBelow;
    var n := |results|;
    FullBits(m, n);
    ClearBit(m, n, 0);
    var m' := m - Pow2(n);
    var was, now := m + ALWAYS, m' + ALWAYS;
    assert now == was - Pow2(n);
    forall k: nat | k <= 32
      ensures Bit(now, k) == (k != n && Bit(was, k))
      ensures k <= n ==> CountBelow(now, k) == CountBelow(was, k)
    {
      ClearBit(was, n, k);
    }
    CountStep(m' + ALWAYS, n);
    forall k: nat | k < n + 1
      ensures PackedAt(m', vals, k, (results + [None])[k])
    {
      if k < n {
        assert PackedAt(m, vals, k, results[k]);
      }
    }
  }

  /** With all indices packed there is a vector of the results. */
  lemma PackedVec(full: nat, m: nat, vals: seq<Val>, results: seq<Option<Val>>)
    requires Packed(full, m, vals, results) && |results| == 32
    ensures ValidVec(AsVec([Int(m)] + vals))
    ensures forall k: nat | k < 32 :: Get(AsVec([Int(m)] + vals), k) == results[k]
  {
    hide Pow2, Bit, CountBelow;
    var v := AsVec([Int(m)] + vals);
    assert ([Int(m)] + vals)[1..] == vals;
    forall k: nat | k < 32
      ensures Get(v, k) == results[k]
    {
      assert PackedAt(m, vals, k, results[k]);
      PositionInside(v, k);
    }
  }

  /** No index has a result exactly when the map is empty and the last two slots are null. */
  lemma PackedEmpty(full: nat, m: nat, vals: seq<Val>, results: seq<Option<Val>>)
    requires Packed(full, m, vals, results) && |results| == 32
    ensures |vals| >= 2
    ensures m == 0 && vals[0] == Null && vals[1] == Null <==> forall k: nat | k < 32 :: results[k] == None
  {
    hide Pow2, Bit, CountBelow;
    FullBits(m, 30);
    CountStep(m + ALWAYS, 30);
    CountStep(m + ALWAYS, 31);
    assert PackedAt(m, vals, 30, results[30]) && PackedAt(m, vals, 31, results[31]);
    if m == 0 {
      EmptyLow();
      forall k: nat | k < 30
        ensures results[k] == None
      {
        FullBits(0, k);
        NoBits(k);
        assert PackedAt(m, vals, k, results[k]);
      }
    } else {
      var k := SomeBit(m, 30);
      FullBits(m, k);
      assert PackedAt(m, vals, k, results[k]);
    }
  }

  lemma EmptyLow()
    ensures CountBelow(ALWAYS, 30) == 0 && CountBelow(ALWAYS, 31) == 1
  {
    hide Pow2, Bit, CountBelow;
    WordIsPow();
    NoBits(30);
    NoBits(31);
    EmptyCount(30);
    SetBit(0, 30, 30);
    SetBit(0, 30, 31);
    SetBit(Pow2(30), 31, 30);
    FullBits(0, 30);
    CountStep(ALWAYS, 30);
  }

  lemma {:induction false} SomeBit(m: nat, n: nat) returns (k: nat)
    requires 0 < m < Pow2(n)
    ensures k < n && Bit(m, k)
  {
    if m % 2 == 1 {
      k := 0;
    } else {
      k := SomeBit(m / 2, n - 1);
      k := k + 1;
    }
  }

  /* What copying a table touches. */

  /** Only nodes below `i` have been forwarded, each after its parent or from `i` itself. */
  ghost predicate Under(from: seq<Obj>, was: seq<Forward>, now: seq<Forward>, i: nat)
    requires |was| == |now| == |from|
  {
    forall x: nat | x < |from| && now[x] != was[x] :: x < i && (IsChild(from, i, x) || ParentToo(from, was, now, x))
  }

  /** The same, and `i` too. */
  ghost predicate Grown(from: seq<Obj>, was: seq<Forward>, now: seq<Forward>, i: nat)
    requires |was| == |now| == |from|
  {
    forall x: nat | x < |from| && now[x] != was[x] :: x == i || (x < i && ParentToo(from, was, now, x))
  }

  ghost predicate ParentToo(from: seq<Obj>, was: seq<Forward>, now: seq<Forward>, x: nat)
    requires |was| == |now| == |from|
  {
    exists d: nat :: d < |from| && now[d] != was[d] && IsChild(from, d, x)
  }

  lemma OneParent(from: seq<Obj>, d: nat, d': nat, x: nat)
    requires NoSharing(from) && IsChild(from, d, x) && IsChild(from, d', x)
    ensures d == d'
  {
    hide Get, AsVec, IsDispatch;
    var k :| Child(from, d, k, x);
    var k' :| Child(from, d', k', x);
  }

  lemma UnderThen(from: seq<Obj>, was: seq<Forward>, mid: seq<Forward>, now: seq<Forward>, i: nat, c: nat)
    requires |was| == |mid| == |now| == |from| && Later(was, mid) && Later(mid, now)
    requires Under(from, was, mid, i) && Grown(from, mid, now, c) && IsChild(from, i, c) && c < i
    ensures Under(from, was, now, i)
  {
    hide Get, AsVec, IsDispatch, IsChild;
    forall x: nat | x < |from| && now[x] != was[x]
      ensures x < i && (IsChild(from, i, x) || ParentToo(from, was, now, x))
    {
      if mid[x] != was[x] {
        if !IsChild(from, i, x) {
          var d: nat :| d < |from| && mid[d] != was[d] && IsChild(from, d, x);
          assert now[d] != was[d];
        }
      } else if x != c {
        var d: nat :| d < |from| && now[d] != mid[d] && IsChild(from, d, x);
        assert now[d] != was[d];
      }
    }
  }

  /** The other children of `i` are as they were. */
  lemma SiblingStays(from: seq<Obj>, mid: seq<Forward>, now: seq<Forward>, i: nat, k: nat, c: nat, k': nat, x: nat)
    requires |mid| == |now| == |from| && Grown(from, mid, now, c) && NoSharing(from) && c < i && x < |from|
    requires Child(from, i, k, c) && Child(from, i, k', x) && k != k'
    ensures now[x] == mid[x]
  {
    hide Get, AsVec, IsDispatch;
    assert IsChild(from, i, x);
    forall d: nat | IsChild(from, d, x)
      ensures d == i
    {
      OneParent(from, d, i, x);
    }
  }

  /** A table stays whole when a node without a parent in it is forwarded. */
  lemma WholeThen(from: seq<Obj>, was: seq<Forward>, now: seq<Forward>, i: nat, bound: nat)
    requires |was| == |now| == |from| && Later(was, now) && Grown(from, was, now, i) && NoSharing(from)
    requires WholeIn(from, was, bound) && forall d: nat, k: nat :: Child(from, d, k, i) ==> d >= bound
    ensures WholeIn(from, now, bound)
  {
    hide Get, AsVec, IsDispatch;
    forall d: nat, k: nat, c: nat | Child(from, d, k, c) && d < bound && c < |from| && now[d].Stays?
      ensures now[c].Stays?
    {
      assert IsChild(from, d, c) && was[d].Stays?;
      forall d': nat | IsChild(from, d', c)
        ensures d' == d
      {
        OneParent(from, d, d', c);
      }
    }
  }

  lemma UnderGrown(from: seq<Obj>, was: seq<Forward>, mid: seq<Forward>, now: seq<Forward>, i: nat)
    requires |was| == |mid| == |now| == |from| && i < |from| && Under(from, was, mid, i)
    requires now == mid[i := now[i]] && now[i] != was[i]
    ensures Grown(from, was, now, i)
  {
    hide IsChild;
    forall x: nat | x < |from| && now[x] != was[x]
      ensures x == i || (x < i && ParentToo(from, was, now, x))
    {
      if x != i {
        assert mid[x] != was[x];
        if IsChild(from, i, x) {
        } else {
          var d: nat :| d < |from| && mid[d] != was[d] && IsChild(from, d, x);
          assert now[d] != was[d];
        }
      }
    }
  }

  lemma UnderUnder(from: seq<Obj>, was: seq<Forward>, mid: seq<Forward>, now: seq<Forward>, i: nat)
    requires |was| == |mid| == |now| == |from| && Later(was, mid) && Later(mid, now)
    requires Under(from, was, mid, i) && Under(from, mid, now, i)
    ensures Under(from, was, now, i)
  {
    hide IsChild;
    forall x: nat | x < |from| && now[x] != was[x]
      ensures x < i && (IsChild(from, i, x) || ParentToo(from, was, now, x))
    {
      if !IsChild(from, i, x) {
        var d: nat :|
          d < |from| && IsChild(from, d, x) && (if mid[x] != was[x] then mid[d] != was[d] else now[d] != mid[d]);
        assert now[d] != was[d];
      }
    }
  }

  /** The results of the first indices of a dispatch node. */
  ghost predicate ResultsOk(o: Obj, results: seq<Option<Val>>, forward: seq<Forward>)
    requires IsDispatch(o) && |results| <= 32
  {
    forall k: nat | k < |results| :: ResultAt(o, k, results[k], forward)
  }

  ghost predicate ResultAt(o: Obj, k: nat, result: Option<Val>, forward: seq<Forward>)
    requires IsDispatch(o) && k < 32
  {
    var slot := Get(AsVec(o.fields), k);
    (slot.Some? ==> slot.value.Old? && Settled(slot.value, forward)) && result == SlotResult(o, k, forward)
  }

  lemma ResultHere(o: Obj, k: nat, x: Val, forward: seq<Forward>)
    requires IsDispatch(o) && k < 32 && Get(AsVec(o.fields), k) == AsSlot(x)
    requires x == Null || (x.Old? && Settled(x, forward))
    ensures ResultAt(o, k, AsSlot(Relocated(x, forward)), forward)
  {
    hide Get, AsVec, IsDispatch;
  }

  lemma ResultsStable(o: Obj, results: seq<Option<Val>>, was: seq<Forward>, now: seq<Forward>)
    requires IsDispatch(o) && |results| <= 32 && ResultsOk(o, results, was) && Later(was, now)
    ensures ResultsOk(o, results, now)
  {
    hide Get, AsVec, IsDispatch;
    forall k: nat | k < |results|
      ensures ResultAt(o, k, results[k], now)
    {
      assert ResultAt(o, k, results[k], was);
    }
  }

  /** With all results packed, the new dispatch node is what it should be. */
  lemma PackedDispatch(o: Obj, full: nat, m: nat, vals: seq<Val>, results: seq<Option<Val>>, forward: seq<Forward>)
    requires IsDispatch(o) && |results| == 32 && ResultsOk(o, results, forward) && Packed(full, m, vals, results)
    ensures |vals| >= 2
    ensures if m == 0 && vals[0] == Null && vals[1] == Null then NothingLeft(o, forward)
            else DispatchOk(o, Record(TAB_DISPATCH_TAG, [Int(m)] + vals), forward)
  {
    hide Get, Packed, ValidVec, SlotResult;
    PackedVec(full, m, vals, results);
    PackedEmpty(full, m, vals, results);
    forall k: nat | k < 32
      ensures SlotResult(o, k, forward) == results[k]
      ensures var slot := Get(AsVec(o.fields), k); slot.Some? ==> slot.value.Old? && Settled(slot.value, forward)
    {
      assert ResultAt(o, k, results[k], forward);
    }
    assert SlotsSettled(o, forward);
    if m == 0 && vals[0] == Null && vals[1] == Null {
      assert NoSlots(o, forward);
    } else {
      var copy := Record(TAB_DISPATCH_TAG, [Int(m)] + vals);
      assert HasMap(copy.fields) && IsDispatch(copy);
      assert SlotsMatch(o, copy, forward);
      var k: nat :| k < 32 && results[k] != None;
      assert SlotResult(o, k, forward) != None;
    }
  }

  /** The element of a dispatch node at the place of a bit is the slot of its index. */
  lemma SlotField(from: seq<Obj>, i: nat, b: nat)
    requires i < |from| && IsDispatch(from[i]) && NodeOk(from, from[i]) && PointsInside(from[i], i, |from|) && b < 32
    ensures var o, full := from[i], from[i].fields[0].n + ALWAYS;
            var pos := 1 + CountBelow(full, b);
            if !Bit(full, b) then Get(AsVec(o.fields), b) == None
            else
              && pos < |o.fields| && Get(AsVec(o.fields), b) == AsSlot(o.fields[pos])
              && (o.fields[pos] != Null ==>
                    o.fields[pos].Old? && o.fields[pos].i < i && IsTable(from[o.fields[pos].i])
                    && Child(from, i, b, o.fields[pos].i))
  {
    hide Bit, CountBelow, Pow2;
    PositionInside(AsVec(from[i].fields), b);
  }
}
