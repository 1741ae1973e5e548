/** What the garbage collector works on.  Addresses are indices: `Old` points into the store
    that is collected, `New` into the one that is filled. */
module GcStores {
  import opened Basics
  import opened Graphs
  import opened Mapvecs

  datatype Val = Null | Int(n: nat) | Old(i: nat) | New(j: nat)

  datatype Obj =
    | Blob(data: seq<int>)
    | Record(tag: nat, fields: seq<Val>)

  /** The header of an old object is overwritten with its new place, or with 0 for a table
      of which nothing is left. */
  datatype Forward = Stays | Moved(at: nat) | Dropped

  const TAB_DISPATCH_TAG := 0x7D
  const TAB_SEARCH_TAG := 0x7E
  const FIRST_DICT_TAG := 0x77
  const MAX_DELAYED := 1024

  predicate IsTable(o: Obj) {
    o.Record? && (o.tag == TAB_DISPATCH_TAG || o.tag == TAB_SEARCH_TAG)
  }

  /** Objects whose first field is their number among those with the same tag. */
  predicate Counted(o: Obj) {
    o.Record? && 64 <= o.tag < 80
  }

  /** The fields of an object that are followed. */
  predicate Followed(o: Obj, k: nat) {
    o.Record? && k < |o.fields| && !IsTable(o) && !(k == 0 && Counted(o))
  }

  /* Table nodes. */

  function AsSlot(v: Val): Option<Val> {
    if v == Null then None else Some(v)
  }

  function Slots(vals: seq<Val>): (slots: seq<Option<Val>>)
    ensures |slots| == |vals|
    ensures forall k :: 0 <= k < |vals| ==> slots[k] == AsSlot(vals[k])
  {
    seq(|vals|, k requires 0 <= k < |vals| => AsSlot(vals[k]))
  }

  predicate HasMap(fields: seq<Val>) {
    fields != [] && fields[0].Int?
  }

  function AsVec(fields: seq<Val>): Mapvec<Val>
    requires HasMap(fields)
  {
    Mapvec(fields[0].n, Slots(fields[1..]))
  }

  ghost predicate IsDispatch(o: Obj) {
    o.Record? && o.tag == TAB_DISPATCH_TAG && HasMap(o.fields) && ValidVec(AsVec(o.fields))
  }

  predicate IsSearch(o: Obj) {
    o.Record? && o.tag == TAB_SEARCH_TAG && o.fields != [] && o.fields[0].Int?
  }

  /** `d` has `c` in its slot for an index. */
  ghost predicate Child(from: seq<Obj>, d: nat, k: nat, c: nat) {
    d < |from| && IsDispatch(from[d]) && k < 32 && Get(AsVec(from[d].fields), k) == Some(Old(c))
  }

  ghost predicate IsChild(from: seq<Obj>, d: nat, x: nat) {
    exists k :: Child(from, d, k, x)
  }

  /* Stores as they can be collected here. */

  /** The fields of object `i` lead to objects of the store; subtables lie before the
      dispatch node they belong to. */
  predicate PointsInside(o: Obj, i: nat, size: nat) {
    o.Record? ==> forall k :: 0 <= k < |o.fields| ==> FieldInside(o, o.fields[k], i, size)
  }

  predicate FieldInside(o: Obj, v: Val, i: nat, size: nat)
    requires o.Record?
  {
    !v.New? && (v.Old? ==> v.i < size && (o.tag == TAB_DISPATCH_TAG ==> v.i < i))
  }

  ghost predicate NodeOk(from: seq<Obj>, o: Obj) {
    && (o.Record? ==> o.tag < FIRST_DICT_TAG || IsSearch(o) || IsDispatch(o))
    && (IsSearch(o) ==> forall k :: 0 < k < |o.fields| && o.fields[k].Old? ==>
                          o.fields[k].i < |from| && !IsTable(from[o.fields[k].i]))
    && (IsDispatch(o) ==> forall k :: 0 < k < |o.fields| && o.fields[k] != Null ==>
                            o.fields[k].Old? && o.fields[k].i < |from| && IsTable(from[o.fields[k].i]))
  }

  /** Inner nodes of tables are referenced once, from their table. */
  ghost predicate NoSharing(from: seq<Obj>) {
    && (forall d, k, c, d', k' :: Child(from, d, k, c) && Child(from, d', k', c) ==> d == d' && k == k')
    && forall i, f, d, k ::
         0 <= i < |from| && 0 <= f && Followed(from[i], f) && from[i].fields[f].Old?
         ==> !Child(from, d, k, from[i].fields[f].i)
  }

  ghost predicate StoreOk(from: seq<Obj>) {
    && (forall i :: 0 <= i < |from| ==> PointsInside(from[i], i, |from|) && NodeOk(from, from[i]))
    && NoSharing(from)
  }

  /** Subtables are tables and lie before their parents. */
  lemma ChildBefore(from: seq<Obj>, d: nat, k: nat, c: nat)
    requires StoreOk(from) && Child(from, d, k, c)
    ensures c < d < |from| && IsTable(from[c])
  {
    hide Get, ValidVec, NoSharing;
    assert NodeOk(from, from[d]) && PointsInside(from[d], d, |from|);
    IndexSlot(AsVec(from[d].fields), k);
  }

  ghost predicate RootOk(from: seq<Obj>, root: Val) {
    && !root.New?
    && (root.Old? ==> root.i < |from| && forall d, k :: !Child(from, d, k, root.i))
  }

  /* What is alive. */

  function Targets(vals: seq<Val>): seq<nat> {
    if vals == [] then []
    else (if vals[0].Old? then [vals[0].i] else []) + Targets(vals[1..])
  }

  function Followees(o: Obj): seq<nat> {
    if o.Blob? || IsTable(o) then []
    else Targets(if Counted(o) && o.fields != [] then o.fields[1..] else o.fields)
  }

  function AsGraph(from: seq<Obj>): (g: Graph)
    ensures |g| == |from|
    ensures forall i :: 0 <= i < |from| ==> g[i] == Followees(from[i])
  {
    seq(|from|, i requires 0 <= i < |from| => Followees(from[i]))
  }

  function Roots(root: Val): set<nat> {
    if root.Old? then {root.i} else {}
  }

  /** Reachable from the root, but not through a table. */
  ghost predicate Live(from: seq<Obj>, root: Val, i: nat) {
    i in ReachableSet(AsGraph(from), Roots(root))
  }

  /** Reachable, or below a table node that is: subtables lie before their parents. */
  ghost predicate Held(from: seq<Obj>, root: Val, i: nat)
    decreases |from| - i
  {
    i < |from| && (Live(from, root, i) || exists d :: i < d < |from| && IsChild(from, d, i) && Held(from, root, d))
  }

  lemma HeldLive(from: seq<Obj>, root: Val, i: nat)
    requires i < |from| && Live(from, root, i)
    ensures Held(from, root, i)
  {
  }

  lemma HeldChild(from: seq<Obj>, root: Val, d: nat, k: nat, c: nat)
    requires StoreOk(from) && Held(from, root, d) && Child(from, d, k, c)
    ensures Held(from, root, c)
  {
    hide Live, StoreOk, Child;
    ChildBefore(from, d, k, c);
    assert IsChild(from, d, c);
  }

  lemma {:induction false} TargetsAre(vals: seq<Val>, c: nat)
    ensures c in Targets(vals) <==> exists k :: 0 <= k < |vals| && vals[k] == Old(c)
  {
    if vals != [] {
      TargetsAre(vals[1..], c);
      if c in Targets(vals[1..]) {
        var k :| 0 <= k < |vals[1..]| && vals[1..][k] == Old(c);
        assert vals[k + 1] == Old(c);
      }
      forall k | 0 <= k < |vals| && vals[k] == Old(c)
        ensures c in Targets(vals)
      {
        if k > 0 {
          assert vals[1..][k - 1] == Old(c);
        }
      }
    }
  }

  lemma FolloweesAre(o: Obj, c: nat)
    ensures c in Followees(o) <==> exists k: nat :: Followed(o, k) && o.fields[k] == Old(c)
  {
    if o.Record? && !IsTable(o) {
      var skip := Counted(o) && o.fields != [];
      var vals := if skip then o.fields[1..] else o.fields;
      TargetsAre(vals, c);
      if c in Targets(vals) {
        var k :| 0 <= k < |vals| && vals[k] == Old(c);
        assert Followed(o, if skip then k + 1 else k);
      }
      forall k: nat | Followed(o, k) && o.fields[k] == Old(c)
        ensures c in Targets(vals)
      {
        assert vals[if skip then k - 1 else k] == Old(c);
      }
    }
  }

  lemma GraphValid(from: seq<Obj>)
    requires StoreOk(from)
    ensures ValidGraph(AsGraph(from))
  {
    hide NodeOk, NoSharing;
    var g := AsGraph(from);
    forall s, k | 0 <= s < |g| && 0 <= k < |g[s]|
      ensures g[s][k] < |g|
    {
      FolloweesAre(from[s], g[s][k]);
      assert PointsInside(from[s], s, |from|);
    }
  }

  lemma LiveRoot(from: seq<Obj>, root: Val)
    requires RootOk(from, root) && root.Old?
    ensures Live(from, root, root.i)
  {
    ReachableRoots(AsGraph(from), Roots(root));
  }

  lemma LiveStep(from: seq<Obj>, root: Val, i: nat, k: nat)
    requires StoreOk(from) && i < |from| && Live(from, root, i) && Followed(from[i], k) && from[i].fields[k].Old?
    ensures Live(from, root, from[i].fields[k].i)
  {
    hide ReachableSet;
    GraphValid(from);
    FolloweesAre(from[i], from[i].fields[k].i);
    ReachableStep(AsGraph(from), Roots(root), i, from[i].fields[k].i);
  }

  /** What holds the root and whatever its members follow to holds all that is alive. */
  lemma LiveLeast(from: seq<Obj>, root: Val, region: set<nat>)
    requires StoreOk(from) && Roots(root) <= region
    requires forall i, k ::
               i in region && i < |from| && 0 <= k && Followed(from[i], k) && from[i].fields[k].Old?
               ==> from[i].fields[k].i in region
    ensures forall i :: Live(from, root, i) ==> i in region
  {
    hide ReachableSet;
    var g := AsGraph(from);
    forall v, w | v in region && v < |g| && w in g[v]
      ensures w in region
    {
      FolloweesAre(from[v], w);
    }
    ReachableLeast(g, Roots(root), region);
  }
}
