/** Walking over the entries of a hash trie: the recursive walk, and the iterator that keeps
    its place in arrays of ten nodes and ten indices. */
module TrieEntries {
  import opened Basics
  import opened Mapvecs
  import opened HashTries

  /** The entries of a trie, in the order of the nodes. */
  function Entries<E>(node: Node<E>): seq<E>
    decreases node
  {
    match node
    case Search(_, entries) => entries
    case Dispatch(vec) => SlotEntries(vec.slots)
  }

  function SlotEntries<E>(slots: seq<Option<Node<E>>>): seq<E>
    decreases slots
  {
    if slots == [] then []
    else OptEntries(slots[0]) + SlotEntries(slots[1..])
  }

  function OptEntries<E>(node: Option<Node<E>>): seq<E>
    decreases node
  {
    match node
    case None => []
    case Some(n) => Entries(n)
  }

  /** How many nodes lie on the longest way down. */
  ghost function Height<E>(node: Node<E>): nat
    decreases node
  {
    match node
    case Search(_, _) => 1
    case Dispatch(vec) => 1 + SlotHeight(vec.slots)
  }

  ghost function OptHeight<E>(node: Option<Node<E>>): nat
    decreases node
  {
    match node
    case None => 0
    case Some(n) => Height(n)
  }

  ghost function SlotHeight<E>(slots: seq<Option<Node<E>>>): nat
    decreases slots
  {
    if slots == [] then 0
    else
      var first := OptHeight(slots[0]);
      var rest := SlotHeight(slots[1..]);
      if first > rest then first else rest
  }

  /** How many micro steps it takes to get through a node and leave it. */
  ghost function Steps<E>(node: Node<E>): nat
    decreases node
  {
    match node
    case Search(_, entries) => |entries| + 1
    case Dispatch(vec) => SlotSteps(vec.slots)
  }

  ghost function OptSteps<E>(node: Option<Node<E>>): nat
    decreases node
  {
    match node
    case None => 0
    case Some(n) => Steps(n)
  }

  ghost function SlotSteps<E>(slots: seq<Option<Node<E>>>): nat
    decreases slots
  {
    if slots == [] then 1
    else 1 + OptSteps(slots[0]) + SlotSteps(slots[1..])
  }

  predicate IsWidth(width: nat) {
    width == 1 || width == 2
  }

  /** The length of the record of a node, whose element 0 is the hash or the map; an entry
      takes one element in a table and two in a dictionary. */
  function Length<E>(node: Node<E>, width: nat): nat {
    match node
    case Search(_, entries) => 1 + width * |entries|
    case Dispatch(vec) => 1 + |vec.slots|
  }

  /** Indices of a node: from 1 up to its length, at the start of an entry. */
  predicate InNode<E>(node: Node<E>, i: nat, width: nat)
    requires IsWidth(width)
  {
    1 <= i <= Length(node, width) && (node.Search? ==> (i - 1) % width == 0)
  }

  /** What is still to come in a node from an index on. */
  ghost function Rest<E>(node: Node<E>, i: nat, width: nat): seq<E>
    requires IsWidth(width) && InNode(node, i, width)
  {
    match node
    case Search(_, entries) => Bounded(i - 1, width, |entries|); entries[(i - 1) / width..]
    case Dispatch(vec) => SlotEntries(vec.slots[i - 1..])
  }

  ghost function RestSteps<E>(node: Node<E>, i: nat, width: nat): nat
    requires IsWidth(width) && InNode(node, i, width)
  {
    match node
    case Search(_, entries) => Bounded(i - 1, width, |entries|); |entries| - (i - 1) / width + 1
    case Dispatch(vec) => SlotSteps(vec.slots[i - 1..])
  }

  lemma Bounded(i: nat, width: nat, n: nat)
    requires IsWidth(width) && i <= width * n && i % width == 0
    ensures i / width <= n && (i < width * n <==> i / width < n)
    ensures i < width * n ==> i + width <= width * n && (i + width) % width == 0 && (i + width) / width == i / width + 1
  {
    if width == 1 {
    } else {
    }
  }

  /* The stack of the iterator, bottom first. */

  /** Every node is the one its parent's index names. */
  ghost predicate StackOk<E>(nodes: seq<Node<E>>, indices: seq<nat>, width: nat)
    requires IsWidth(width)
  {
    && |nodes| == |indices|
    && (forall l :: 0 <= l < |nodes| ==> Place(nodes[l], indices[l], width) && Height(nodes[l]) + l <= LEVELS + 1)
    && forall l :: 0 < l < |nodes| ==> Below(nodes[l - 1], indices[l - 1], nodes[l])
  }

  ghost predicate Place<E>(node: Node<E>, i: nat, width: nat)
    requires IsWidth(width)
  {
    InNode(node, i, width)
  }

  ghost predicate Below<E>(parent: Node<E>, i: nat, node: Node<E>) {
    parent.Dispatch? && 1 <= i <= |parent.vec.slots| && parent.vec.slots[i - 1] == Some(node)
  }

  /** What is still to come in the nodes below the top. */
  ghost function Pending<E>(nodes: seq<Node<E>>, indices: seq<nat>, width: nat, n: nat): seq<E>
    requires IsWidth(width) && StackOk(nodes, indices, width) && n < |nodes|
  {
    if n == 0 then []
    else
      assert Below(nodes[n - 1], indices[n - 1], nodes[n]);
      Rest(nodes[n - 1], indices[n - 1] + 1, width) + Pending(nodes, indices, width, n - 1)
  }

  ghost function PendingSteps<E>(nodes: seq<Node<E>>, indices: seq<nat>, width: nat, n: nat): nat
    requires IsWidth(width) && StackOk(nodes, indices, width) && n < |nodes|
  {
    if n == 0 then 0
    else
      assert Below(nodes[n - 1], indices[n - 1], nodes[n]);
      RestSteps(nodes[n - 1], indices[n - 1] + 1, width) + PendingSteps(nodes, indices, width, n - 1)
  }

  /** All that is still to come. */
  ghost function Remaining<E>(nodes: seq<Node<E>>, indices: seq<nat>, width: nat): seq<E>
    requires IsWidth(width) && StackOk(nodes, indices, width)
  {
    var n := |nodes| - 1;
    if n < 0 then []
    else
      assert Place(nodes[n], indices[n], width);
      Rest(nodes[n], indices[n], width) + Pending(nodes, indices, width, n)
  }

  ghost function RemainingSteps<E>(nodes: seq<Node<E>>, indices: seq<nat>, width: nat): nat
    requires IsWidth(width) && StackOk(nodes, indices, width)
  {
    var n := |nodes| - 1;
    if n < 0 then 0
    else
      assert Place(nodes[n], indices[n], width);
      RestSteps(nodes[n], indices[n], width) + PendingSteps(nodes, indices, width, n)
  }

  /** Inside a search node there is an entry at hand. */
  predicate Hit<E>(nodes: seq<Node<E>>, indices: seq<nat>, width: nat)
    requires |nodes| == |indices|
  {
    nodes != [] && nodes[|nodes| - 1].Search? && indices[|nodes| - 1] < Length(nodes[|nodes| - 1], width)
  }

  /** One move of the iterator. */
  function MicroStep<E>(nodes: seq<Node<E>>, indices: seq<nat>, width: nat): (seq<Node<E>>, seq<nat>)
    requires |nodes| == |indices| > 0 && indices[|nodes| - 1] >= 1
  {
    var n := |nodes| - 1;
    var node, i := nodes[n], indices[n];
    if i >= Length(node, width) then
      (nodes[..n], if n > 0 then indices[..n][n - 1 := indices[n - 1] + 1] else [])
    else if node.Dispatch? then
      match node.vec.slots[i - 1] {
        case Some(child) => (nodes + [child], indices + [1])
        case None => (nodes, indices[n := i + 1])
      }
    else (nodes, indices[n := i + width])
  }

  /** Pending depends on the lower part of the stack only. */
  lemma {:induction false} PendingSame<E>(nodes: seq<Node<E>>, indices: seq<nat>, nodes': seq<Node<E>>,
                                          indices': seq<nat>, width: nat, n: nat)
    requires IsWidth(width) && StackOk(nodes, indices, width) && StackOk(nodes', indices', width)
    requires n < |nodes| && n < |nodes'| && nodes[..n] == nodes'[..n] && indices[..n] == indices'[..n]
    ensures Pending(nodes, indices, width, n) == Pending(nodes', indices', width, n)
    ensures PendingSteps(nodes, indices, width, n) == PendingSteps(nodes', indices', width, n)
  {
    if n > 0 {
      assert nodes[n - 1] == nodes[..n][n - 1] == nodes'[n - 1];
      assert indices[n - 1] == indices[..n][n - 1] == indices'[n - 1];
      assert nodes[..n - 1] == nodes[..n][..n - 1] && indices[..n - 1] == indices[..n][..n - 1];
      assert nodes'[..n - 1] == nodes'[..n][..n - 1] && indices'[..n - 1] == indices'[..n][..n - 1];
      PendingSame(nodes, indices, nodes', indices', width, n - 1);
    }
  }

  lemma SlotAt<E>(slots: seq<Option<Node<E>>>, i: nat)
    requires i < |slots|
    ensures SlotEntries(slots[i..]) == OptEntries(slots[i]) + SlotEntries(slots[i + 1..])
    ensures SlotSteps(slots[i..]) == 1 + OptSteps(slots[i]) + SlotSteps(slots[i + 1..])
  {
    assert slots[i..][0] == slots[i] && slots[i..][1..] == slots[i + 1..];
  }

  lemma {:induction false} SlotHeightAt<E>(slots: seq<Option<Node<E>>>, i: nat)
    requires i < |slots|
    ensures OptHeight(slots[i]) <= SlotHeight(slots)
  {
    if i > 0 {
      SlotHeightAt(slots[1..], i - 1);
    }
  }

  lemma AllOfNode<E>(node: Node<E>, width: nat)
    requires IsWidth(width)
    ensures InNode(node, 1, width) && Rest(node, 1, width) == Entries(node) && RestSteps(node, 1, width) == Steps(node)
    ensures Height(node) >= 1
  {
    if node.Search? {
      assert node.entries[0..] == node.entries;
    } else {
      assert node.vec.slots[0..] == node.vec.slots;
    }
  }

  lemma PopKeeps<E>(nodes: seq<Node<E>>, indices: seq<nat>, width: nat)
    requires IsWidth(width) && StackOk(nodes, indices, width) && nodes != []
    requires indices[|nodes| - 1] >= Length(nodes[|nodes| - 1], width)
    ensures var (ns, js) := MicroStep(nodes, indices, width);
            && StackOk(ns, js, width) && RemainingSteps(ns, js, width) == RemainingSteps(nodes, indices, width) - 1
            && Remaining(ns, js, width) == Remaining(nodes, indices, width)
  {
    hide Rest, RestSteps, Height, InNode;
    var n := |nodes| - 1;
    var (ns, js) := MicroStep(nodes, indices, width);
    assert Place(nodes[n], indices[n], width);
    EndOfNode(nodes[n], indices[n], width);
    if n > 0 {
      assert Below(nodes[n - 1], indices[n - 1], nodes[n]);
      NextPlace(nodes[n - 1], indices[n - 1], width);
      assert StackOk(ns, js, width);
      PendingSame(nodes, indices, ns, js, width, n - 1);
    }
  }

  lemma EndOfNode<E>(node: Node<E>, i: nat, width: nat)
    requires IsWidth(width) && InNode(node, i, width) && i >= Length(node, width)
    ensures Rest(node, i, width) == [] && RestSteps(node, i, width) == 1
  {
    if node.Search? {
      Bounded(i - 1, width, |node.entries|);
    }
  }

  lemma NextPlace<E>(node: Node<E>, i: nat, width: nat)
    requires IsWidth(width) && node.Dispatch? && 1 <= i <= |node.vec.slots|
    ensures InNode(node, i, width) && InNode(node, i + 1, width)
    ensures Rest(node, i, width) == OptEntries(node.vec.slots[i - 1]) + Rest(node, i + 1, width)
    ensures RestSteps(node, i, width) == 1 + OptSteps(node.vec.slots[i - 1]) + RestSteps(node, i + 1, width)
  {
    SlotAt(node.vec.slots, i - 1);
  }

  lemma NextEntry<E>(node: Node<E>, i: nat, width: nat)
    requires IsWidth(width) && node.Search? && InNode(node, i, width) && i < Length(node, width)
    ensures InNode(node, i + width, width) && (i - 1) / width < |node.entries|
    ensures Rest(node, i, width) == [node.entries[(i - 1) / width]] + Rest(node, i + width, width)
    ensures RestSteps(node, i, width) == 1 + RestSteps(node, i + width, width)
  {
    Bounded(i - 1, width, |node.entries|);
    var k := (i - 1) / width;
    assert node.entries[k..] == [node.entries[k]] + node.entries[k + 1..];
  }

  lemma PushKeeps<E>(nodes: seq<Node<E>>, indices: seq<nat>, width: nat)
    requires IsWidth(width) && StackOk(nodes, indices, width) && nodes != []
    requires var n := |nodes| - 1;
             nodes[n].Dispatch? && indices[n] < Length(nodes[n], width) && nodes[n].vec.slots[indices[n] - 1].Some?
    ensures var (ns, js) := MicroStep(nodes, indices, width);
            && StackOk(ns, js, width) && RemainingSteps(ns, js, width) == RemainingSteps(nodes, indices, width) - 1
            && Remaining(ns, js, width) == Remaining(nodes, indices, width)
  {
    hide Rest, RestSteps;
    var n := |nodes| - 1;
    assert Place(nodes[n], indices[n], width);
    var (ns, js) := MicroStep(nodes, indices, width);
    var child := ns[n + 1];
    SlotHeightAt(nodes[n].vec.slots, indices[n] - 1);
    AllOfNode(child, width);
    NextPlace(nodes[n], indices[n], width);
    assert Below(ns[n], js[n], child);
    assert forall l :: 0 < l < |nodes| ==> Below(ns[l - 1], js[l - 1], ns[l]);
    assert StackOk(ns, js, width);
    PendingSame(nodes, indices, ns, js, width, n);
    Regroup(Entries(child), Rest(nodes[n], indices[n] + 1, width), Pending(nodes, indices, width, n));
  }

  lemma Regroup<E>(a: seq<E>, b: seq<E>, c: seq<E>)
    ensures (a + b) + c == a + (b + c)
  {
  }

  lemma StayKeeps<E>(nodes: seq<Node<E>>, indices: seq<nat>, width: nat)
    requires IsWidth(width) && StackOk(nodes, indices, width) && nodes != []
    requires var n := |nodes| - 1;
             && indices[n] < Length(nodes[n], width)
             && (nodes[n].Dispatch? ==> nodes[n].vec.slots[indices[n] - 1].None?)
    ensures var (ns, js) := MicroStep(nodes, indices, width);
            && StackOk(ns, js, width) && RemainingSteps(ns, js, width) == RemainingSteps(nodes, indices, width) - 1
            && Remaining(nodes, indices, width)
               == (if Hit(nodes, indices, width) then [Current(nodes, indices, width)] else [])
                  + Remaining(ns, js, width)
  {
    hide Rest, RestSteps, Height;
    var n := |nodes| - 1;
    assert Place(nodes[n], indices[n], width);
    var (ns, js) := MicroStep(nodes, indices, width);
    if nodes[n].Dispatch? {
      NextPlace(nodes[n], indices[n], width);
    } else {
      NextEntry(nodes[n], indices[n], width);
    }
    assert forall l :: 0 < l < |nodes| ==> Below(ns[l - 1], js[l - 1], ns[l]);
    assert StackOk(ns, js, width);
    PendingSame(nodes, indices, ns, js, width, n);
  }

  /** The entry at hand. */
  function Current<E>(nodes: seq<Node<E>>, indices: seq<nat>, width: nat): E
    requires IsWidth(width) && |nodes| == |indices| && Hit(nodes, indices, width)
    requires InNode(nodes[|nodes| - 1], indices[|nodes| - 1], width)
  {
    var n := |nodes| - 1;
    Bounded(indices[n] - 1, width, |nodes[n].entries|);
    nodes[n].entries[(indices[n] - 1) / width]
  }

  /** A micro step passes the entry at hand, if there is one, and loses none. */
  lemma StepKeeps<E>(nodes: seq<Node<E>>, indices: seq<nat>, width: nat)
    requires IsWidth(width) && StackOk(nodes, indices, width) && nodes != []
    ensures var n := |nodes| - 1; InNode(nodes[n], indices[n], width)
    ensures var (ns, js) := MicroStep(nodes, indices, width);
            && StackOk(ns, js, width) && RemainingSteps(ns, js, width) == RemainingSteps(nodes, indices, width) - 1
            && Remaining(nodes, indices, width)
               == (if Hit(nodes, indices, width) then [Current(nodes, indices, width)] else [])
                  + Remaining(ns, js, width)
  {
    hide Remaining, RemainingSteps, MicroStep, StackOk, Current;
    var n := |nodes| - 1;
    TopPlace(nodes, indices, width);
    if indices[n] >= Length(nodes[n], width) {
      PopKeeps(nodes, indices, width);
    } else if nodes[n].Dispatch? && nodes[n].vec.slots[indices[n] - 1].Some? {
      PushKeeps(nodes, indices, width);
    } else {
      StayKeeps(nodes, indices, width);
    }
  }

  lemma TopPlace<E>(nodes: seq<Node<E>>, indices: seq<nat>, width: nat)
    requires IsWidth(width) && StackOk(nodes, indices, width) && nodes != []
    ensures |nodes| == |indices| && InNode(nodes[|nodes| - 1], indices[|nodes| - 1], width)
    ensures |nodes| <= LEVELS + 1
  {
    var n := |nodes| - 1;
    assert Place(nodes[n], indices[n], width);
    AllOfNode(nodes[n], width);
  }

  /* Six levels of dispatch nodes and one search node. */

  lemma {:induction false} HeightBound<E>(node: Option<Node<E>>, path: seq<nat>)
    requires TrieOk(node, path)
    ensures OptHeight(node) <= LEVELS + 1 - |path|
    decreases LEVELS - |path|
  {
    if node.Some? && node.value.Dispatch? {
      var vec := node.value.vec;
      forall p: nat | p < |vec.slots|
        ensures OptHeight(vec.slots[p]) <= LEVELS - |path|
      {
        assert ValidVec(vec);
        var k := SlotIndex(vec, p);
        Subtrie(vec, path, k);
        HeightBound(Get(vec, k), path + [k]);
      }
      SlotHeightBound(vec.slots, LEVELS - |path|);
    }
  }

  lemma {:induction false} SlotHeightBound<E>(slots: seq<Option<Node<E>>>, bound: nat)
    requires forall p: nat | p < |slots| :: OptHeight(slots[p]) <= bound
    ensures SlotHeight(slots) <= bound
  {
    if slots != [] {
      assert OptHeight(slots[0]) <= bound;
      forall p: nat | p < |slots[1..]|
        ensures OptHeight(slots[1..][p]) <= bound
      {
        assert slots[1..][p] == slots[p + 1];
      }
      SlotHeightBound(slots[1..], bound);
    }
  }

  /* The iterator. */

  function Tail<E>(s: seq<E>): seq<E> {
    if s == [] then [] else s[1..]
  }

  const PLACES := 10

  class Cursor<E> {
    const width: nat
    const node: array<Option<Node<E>>>
    const index: array<nat>
    var level: int
    ghost var nodes: seq<Node<E>>
    ghost var indices: seq<nat>

    ghost predicate Valid()
      reads this, node, index
    {
      && IsWidth(width) && node.Length == index.Length == PLACES
      && -1 <= level < PLACES && |nodes| == |indices| == level + 1
      && (forall l :: 0 <= l <= level ==> node[l] == Some(nodes[l]) && index[l] == indices[l])
      && StackOk(nodes, indices, width)
    }

    /** The entries not yet passed, the one at hand included. */
    ghost function ToCome(): seq<E>
      requires Valid()
      reads this, node, index
    {
      Remaining(nodes, indices, width)
    }

    predicate Done()
      reads this
    {
      level < 0
    }

    predicate AtEntry()
      requires Valid() && !Done()
      reads this, node, index
    {
      index[level] < Length(node[level].value, width) && node[level].value.Search?
    }

    method Move()
      requires Valid() && !Done()
      modifies this, node, index
      ensures Valid()
      ensures (nodes, indices) == old(MicroStep(nodes, indices, width))
      ensures ToCome() == old(if AtEntry() then Tail(ToCome()) else ToCome())
      ensures RemainingSteps(nodes, indices, width) < old(RemainingSteps(nodes, indices, width))
    {
      hide StackOk, Remaining, RemainingSteps;
      StepKeeps(nodes, indices, width);
      TopPlace(nodes, indices, width);
      ghost var ns, js := nodes, indices;
      var here, i := node[level].value, index[level];
      assert here == ns[level] && i == js[level];
      ghost var (ns', js') := MicroStep(ns, js, width);
      nodes, indices := ns', js';
      if i >= Length(here, width) {
        level := level - 1;
        if level >= 0 {
          index[level] := index[level] + 1;
        }
      } else if here.Dispatch? {
        var child := here.vec.slots[i - 1];
        if child.Some? {
          TopPlace(nodes, indices, width);
          level := level + 1;
          node[level] := child;
          index[level] := 1;
        } else {
          index[level] := i + 1;
        }
      } else {
        index[level] := i + width;
      }
    }

    constructor (root: Option<Node<E>>, width: nat)
      requires IsWidth(width) && TrieOk(root, [])
      ensures Valid() && fresh(node) && fresh(index) && this.width == width
      ensures ToCome() == OptEntries(root)
      ensures Done() || AtEntry()
    {
      this.width := width;
      node := new Option<Node<E>>[PLACES](_ => root);
      index := new nat[PLACES](_ => 1);
      level := if root.Some? then 0 else -1;
      nodes := if root.Some? then [root.value] else [];
      indices := if root.Some? then [1] else [];
      new;
      hide Rest, RestSteps, Entries, Height, TrieOk;
      HeightBound(root, []);
      if root.Some? {
        AllOfNode(root.value, width);
        assert Remaining(nodes, indices, width) == Entries(root.value) + [];
      }
      Settle();
    }

    /** Micro steps until there is an entry at hand or the end is reached. */
    method Settle()
      requires Valid()
      modifies this, node, index
      ensures Valid() && ToCome() == old(ToCome())
      ensures Done() || AtEntry()
    {
      hide StackOk, Remaining, RemainingSteps;
      while !(Done() || AtEntry())
        invariant Valid() && ToCome() == old(ToCome())
        decreases RemainingSteps(nodes, indices, width)
      {
        Move();
      }
    }

    method Step()
      requires Valid() && !Done() && AtEntry()
      modifies this, node, index
      ensures Valid() && ToCome() == Tail(old(ToCome()))
      ensures Done() || AtEntry()
    {
      Move();
      Settle();
    }

    method Element() returns (e: E)
      requires Valid() && !Done() && AtEntry()
      ensures ToCome() != [] && e == ToCome()[0]
    {
      StepKeeps(nodes, indices, width);
      Bounded(index[level] - 1, width, |nodes[level].entries|);
      e := node[level].value.entries[(index[level] - 1) / width];
    }
  }

  /** The iterator yields what the recursive walk visits, in the same order. */
  method Collect<E>(root: Option<Node<E>>, width: nat) returns (log: seq<E>)
    requires IsWidth(width) && TrieOk(root, [])
    ensures log == OptEntries(root)
  {
    hide OptEntries, Remaining, StackOk, TrieOk;
    var cursor := new Cursor(root, width);
    log := [];
    while !cursor.Done()
      invariant cursor.Valid() && fresh(cursor) && fresh(cursor.node) && fresh(cursor.index)
      invariant cursor.Done() || cursor.AtEntry()
      invariant log + cursor.ToCome() == OptEntries(root)
      decreases |cursor.ToCome()|
    {
      var e := cursor.Element();
      ghost var left := cursor.ToCome();
      Regroup(log, [e], left[1..]);
      assert left == [e] + left[1..];
      log := log + [e];
      cursor.Step();
    }
    NothingLeft(cursor.nodes, cursor.indices, width);
    assert log + [] == log;
  }

  lemma NothingLeft<E>(nodes: seq<Node<E>>, indices: seq<nat>, width: nat)
    requires IsWidth(width) && StackOk(nodes, indices, width) && nodes == []
    ensures Remaining(nodes, indices, width) == []
  {
  }

  /** The recursive walk over all entries. */
  method ForEach<E>(node: Option<Node<E>>) returns (log: seq<E>)
    ensures log == OptEntries(node)
    decreases node
  {
    if node.None? {
      return [];
    }
    match node.value
    case Search(_, entries) =>
      log := [];
      for i := 0 to |entries|
        invariant log == entries[..i]
      {
        log := log + [entries[i]];
      }
    case Dispatch(vec) =>
      log := [];
      for i := 0 to |vec.slots|
        invariant log + SlotEntries(vec.slots[i..]) == Entries(node.value)
      {
        SlotAt(vec.slots, i);
        var below := ForEach(vec.slots[i]);
        log := log + below;
      }
  }
}
