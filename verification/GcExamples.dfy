/** Stores that can be collected, and stores with too many references to tables. */
module GcExamples {
  import opened Basics
  import opened Graphs
  import opened Mapvecs
  import opened GcStores
  import opened GcTables
  import opened GcDelays

  /** A counted record with a table and a blob that the table also has, laid out as a
      collection leaves them: what is led to comes later, except for subtables. */
  function SmallStore(): seq<Obj> {
    [Record(64, [Int(5), Old(3), Old(1)]), Blob([1, 2]), Record(0x7E, [Int(7), Old(1)]),
     Record(0x7D, [Int(0), Old(2), Null])]
  }

  lemma SmallVec()
    ensures ValidVec(AsVec(SmallStore()[3].fields))
    ensures AsVec(SmallStore()[3].fields) == Mapvec(0, [Some(Old(2)), None])
  {
    hide Pow2, CountBelow, Bit;
    assert Slots([Old(2), Null]) == [Some(Old(2)), None];
    assert SmallStore()[3].fields[1..] == [Old(2), Null];
    EmptyCounts();
  }

  lemma SmallChild(d: nat, k: nat, c: nat)
    requires Child(SmallStore(), d, k, c)
    ensures d == 3 && k == 30 && c == 2
  {
    hide Pow2, CountBelow, Bit, ValidVec;
    SmallVec();
    IndexSlot(AsVec(SmallStore()[3].fields), k);
    EmptyLow();
    FullBits(0, k);
    NoBits(k);
    PowPositive();
  }

  lemma PowPositive()
    ensures 0 < Pow2(30)
  {
  }

  lemma SmallNodes()
    ensures forall i :: 0 <= i < 4 ==> PointsInside(SmallStore()[i], i, 4) && NodeOk(SmallStore(), SmallStore()[i])
  {
    hide ValidVec, Get, AsVec;
    SmallVec();
  }

  lemma SmallStoreOk()
    ensures StoreOk(SmallStore()) && RootOk(SmallStore(), Old(0))
  {
    hide Child, NodeOk, PointsInside;
    SmallNodes();
    forall d: nat, k: nat, c: nat | Child(SmallStore(), d, k, c)
      ensures d == 3 && k == 30 && c == 2
    {
      SmallChild(d, k, c);
    }
  }

  /** Records with any tag below those of dictionaries can be collected. */
  lemma AnyTag(tag: nat, n: nat)
    requires tag < 0x77
    ensures StoreOk([Record(tag, seq(n, _ => Old(0)))]) && RootOk([Record(tag, seq(n, _ => Old(0)))], Old(0))
  {
    hide ValidVec, Get, AsVec;
  }

  /** A record that leads to the same table `n` times. */
  function WideStore(n: nat): seq<Obj> {
    [Record(0, seq(n, _ => Old(1))), Record(0x7E, [Int(7), Old(2)]), Blob([1])]
  }

  lemma {:induction false} WideWaits(n: nat, k: nat)
    requires k <= n
    ensures FieldWaits(WideStore(n), WideStore(n)[0], k) == k
  {
    if k > 0 {
      WideWaits(n, k - 1);
    }
  }

  lemma WideOk(n: nat)
    ensures StoreOk(WideStore(n)) && RootOk(WideStore(n), Old(0))
  {
    hide ValidVec, Get, AsVec;
  }

  /** Such a store can be collected exactly if the record leads to the table at most 1024
      times; with 1025 fields collecting it fails. */
  lemma WideRefs(n: nat)
    ensures StoreOk(WideStore(n)) && RootOk(WideStore(n), Old(0)) && TableRefs(WideStore(n), Old(0)) == n
  {
    hide StoreOk, RootOk, ReachableSet, FieldWaits;
    var from := WideStore(n);
    WideOk(n);
    WideWaits(n, n);
    LiveRoot(from, Old(0));
    assert Live(from, Old(0), 0);
    var live := ReachableSet(AsGraph(from), Roots(Old(0)));
    assert ObjWaits(from, from[0]) == n;
    assert ObjWaits(from, from[1]) == 0 by { NoWaits(from, from[1], 2); }
    assert ObjWaits(from, from[2]) == 0;
    assert SetWaits(from, live, 1) == n;
    assert SetWaits(from, live, 2) == n;
    assert SetWaits(from, live, 3) == n;
  }

  /** 1024 references are fine, 1025 are too many. */
  lemma TooManyTables()
    ensures StoreOk(WideStore(1024)) && RootOk(WideStore(1024), Old(0))
    ensures TableRefs(WideStore(1024), Old(0)) == 1024 <= MAX_DELAYED
    ensures StoreOk(WideStore(1025)) && RootOk(WideStore(1025), Old(0))
    ensures TableRefs(WideStore(1025), Old(0)) == 1025 > MAX_DELAYED
  {
    WideRefs(1024);
    WideRefs(1025);
  }
}
