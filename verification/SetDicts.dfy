/** Dictionaries of sets: every key has the values added to it and not deleted since. */
module SetDicts {
  import opened Basics
  import opened HashTries
  import opened Dictionaries

  /** The first place of a value, or the length. */
  function IndexOf<W(==)>(values: seq<W>, val: W): (i: nat)
    ensures i <= |values|
    ensures forall j :: 0 <= j < i ==> values[j] != val
    ensures i < |values| ==> values[i] == val
  {
    if values == [] || values[0] == val then 0 else 1 + IndexOf(values[1..], val)
  }

  method FindMember<W(==)>(values: seq<W>, val: W) returns (i: nat)
    ensures i == IndexOf(values, val)
  {
    i := 0;
    while i < |values| && values[i] != val
      invariant i <= |values|
      invariant forall j :: 0 <= j < i ==> values[j] != val
    {
      i := i + 1;
    }
  }

  function AddMember<W(==)>(values: seq<W>, val: W): seq<W> {
    if IndexOf(values, val) < |values| then values else values + [val]
  }

  /** Removing the last member leaves no set at all. */
  function RemoveMember<W(==)>(values: seq<W>, val: W): Option<seq<W>> {
    var i := IndexOf(values, val);
    if i == |values| then Some(values)
    else if |values| == 1 then None
    else Some(values[..i] + values[i + 1..])
  }

  function AddAction<K(==), W(==)>(node: Root<K, seq<W>>, h: nat, data: (K, W)): (Root<K, seq<W>>, (K, W)) {
    var (key, val) := data;
    match node
    case None => (Some(Search(h, [Entry(key, [val])])), data)
    case Some(Search(own, entries)) =>
      var i := Position(entries, key);
      if i < |entries| then
        var added := AddMember(entries[i].val, val);
        (if added != entries[i].val then Some(Search(own, entries[i := Entry(key, added)])) else node, data)
      else (Some(Search(own, entries + [Entry(key, [val])])), data)
    case Some(Dispatch(_)) => (node, data)
  }

  function DelAction<K(==), W(==)>(node: Root<K, seq<W>>, h: nat, data: (K, W)): (Root<K, seq<W>>, (K, W)) {
    var (key, val) := data;
    match node
    case None => (node, data)
    case Some(Search(own, entries)) =>
      var i := Position(entries, key);
      if i == |entries| then (node, data)
      else
        match RemoveMember(entries[i].val, val) {
          case None =>
            (if |entries| == 1 then None else Some(Search(own, entries[..i] + entries[i + 1..])), data)
          case Some(left) =>
            (if left != entries[i].val then Some(Search(own, entries[i := Entry(key, left)])) else node, data)
        }
    case Some(Dispatch(_)) => (node, data)
  }

  /** Sets are kept without repetitions, and never empty. */
  ghost predicate SetsOk<K(!new), W>(root: Root<K, seq<W>>, hash: K -> Hash) {
    && RootOk(root, hash)
    && forall k: K :: SetOk(ValueAt(root, hash, k))
  }

  predicate SetOk<W(==)>(values: Option<seq<W>>) {
    values.Some? ==> values.value != [] && Distinct(values.value)
  }

  ghost function Elements<W>(values: Option<seq<W>>): set<W> {
    if values.None? then {} else set w | w in values.value
  }

  ghost function Members<K, W>(root: Root<K, seq<W>>, hash: K -> Hash, key: K): set<W>
    requires TrieOk(root, [])
  {
    Elements(ValueAt(root, hash, key))
  }

  ghost function Added<W>(values: Option<seq<W>>, val: W): Option<seq<W>> {
    Some(AddMember(if values.Some? then values.value else [], val))
  }

  ghost function Removed<W>(values: Option<seq<W>>, val: W): Option<seq<W>> {
    if values.Some? then RemoveMember(values.value, val) else None
  }

  lemma AddedElements<W>(values: Option<seq<W>>, val: W)
    requires SetOk(values)
    ensures SetOk(Added(values, val)) && Elements(Added(values, val)) == Elements(values) + {val}
  {
  }

  lemma RemovedElements<W>(values: Option<seq<W>>, val: W)
    requires SetOk(values)
    ensures SetOk(Removed(values, val)) && Elements(Removed(values, val)) == Elements(values) - {val}
  {
    if values.Some? && IndexOf(values.value, val) < |values.value| {
      var i, vs := IndexOf(values.value, val), values.value;
      var left := vs[..i] + vs[i + 1..];
      assert forall j :: 0 <= j < |left| ==> left[j] == vs[if j < i then j else j + 1];
      assert forall j :: 0 <= j < |vs| && j != i ==> vs[j] == left[if j < i then j else j - 1];
      if |vs| == 1 {
        assert Elements(values) == {val};
      }
    }
  }

  lemma AddActionPuts<K, W>(entries: seq<Entry<K, seq<W>>>, h: nat, key: K, val: W)
    ensures AddAction(Bucket(h, entries), h, (key, val)).0
            == Bucket(h, Put(entries, key, Added(Assoc(entries, key), val)))
  {
    PutBack(entries, key);
    var i := Position(entries, key);
    if i == |entries| {
      assert AddMember([], val) == [val];
      assert entries + [Entry(key, [val])] != [];
      if entries == [] {
        assert entries + [Entry(key, [val])] == [Entry(key, [val])];
      }
    }
  }

  lemma DelActionPuts<K, W>(entries: seq<Entry<K, seq<W>>>, h: nat, key: K, val: W)
    ensures DelAction(Bucket(h, entries), h, (key, val)).0
            == Bucket(h, Put(entries, key, Removed(Assoc(entries, key), val)))
  {
    PutBack(entries, key);
    var i := Position(entries, key);
    if i < |entries| {
      assert |entries[..i] + entries[i + 1..]| == |entries| - 1;
    }
  }

  /** Adding adds one value to the set of its key. */
  lemma AddAdds<K(!new), W>(root: Root<K, seq<W>>, hash: K -> Hash, key: K, val: W)
    requires SetsOk(root, hash)
    ensures var now := Reach(AddAction, root, hash(key), (key, val)).0;
            && SetsOk(now, hash)
            && forall k: K :: Members(now, hash, k) == Members(root, hash, k) + if k == key then {val} else {}
  {
    hide AddAction, Find, TrieOk, Reach, Put, Bucket, Assoc, Elements, Added, SetOk;
    var here := Find(root, [], hash(key));
    AddActionPuts(here, hash(key), key, val);
    ReachPuts(AddAction, root, hash, key, (key, val), Added(Assoc(here, key), val));
    assert SetOk(ValueAt(root, hash, key));
    AddedElements(ValueAt(root, hash, key), val);
  }

  /** Deleting takes one value from the set of its key. */
  lemma DelDeletes<K(!new), W>(root: Root<K, seq<W>>, hash: K -> Hash, key: K, val: W)
    requires SetsOk(root, hash)
    ensures var now := Reach(DelAction, root, hash(key), (key, val)).0;
            && SetsOk(now, hash)
            && forall k: K :: Members(now, hash, k) == Members(root, hash, k) - if k == key then {val} else {}
  {
    hide DelAction, Find, TrieOk, Reach, Put, Bucket, Assoc, Elements, Removed, SetOk;
    var here := Find(root, [], hash(key));
    DelActionPuts(here, hash(key), key, val);
    ReachPuts(DelAction, root, hash, key, (key, val), Removed(Assoc(here, key), val));
    assert SetOk(ValueAt(root, hash, key));
    RemovedElements(ValueAt(root, hash, key), val);
  }

  class SetDict<K(==, !new), W(==)> {
    const hash: K -> Hash
    var root: Root<K, seq<W>>

    ghost predicate Valid()
      reads this
    {
      SetsOk(root, hash)
    }

    ghost function Values(key: K): set<W>
      requires Valid()
      reads this
    {
      Members(root, hash, key)
    }

    constructor (hash: K -> Hash, root: Root<K, seq<W>>)
      requires SetsOk(root, hash)
      ensures this.hash == hash && this.root == root && Valid()
    {
      this.hash := hash;
      this.root := root;
    }

    method Add(key: K, val: W)
      requires Valid()
      modifies this
      ensures Valid()
      ensures forall k: K :: Values(k) == old(Values(k)) + if k == key then {val} else {}
    {
      AddAdds(root, hash, key, val);
      root := Reach(AddAction, root, hash(key), (key, val)).0;
    }

    method Del(key: K, val: W)
      requires Valid()
      modifies this
      ensures Valid()
      ensures forall k: K :: Values(k) == old(Values(k)) - if k == key then {val} else {}
    {
      DelDeletes(root, hash, key, val);
      root := Reach(DelAction, root, hash(key), (key, val)).0;
    }
  
    method Get(key: K, inPlace: bool) returns (values: Option<seq<W>>)
      requires Valid()
      modifies this
      ensures Valid() && SetOk(values)
      ensures Elements(values) == old(Values(key))
      ensures forall k: K :: Values(k) == old(Values(k))
    {
      GetKeeps(root, hash, key);
      var (node, data) := Reach(GetAction, root, hash(key), (key, None));
      if inPlace {
        root := node;
      }
      values := data.1;
    }
  }

  lemma GetKeeps<K(!new), W>(root: Root<K, seq<W>>, hash: K -> Hash, key: K)
    requires SetsOk(root, hash)
    ensures var now := Reach(GetAction, root, hash(key), (key, None));
            && SetsOk(now.0, hash) && now.1.1 == ValueAt(root, hash, key) && SetOk(now.1.1)
            && forall k: K :: Members(now.0, hash, k) == Members(root, hash, k)
  {
    hide Find, TrieOk, Reach, Put, Bucket, Assoc, Elements, SetOk;
    GetGets(root, hash, key);
  }

  /* Runs. */

  datatype Op<K, W> = AddOp(key: K, val: W) | DelOp(key: K, val: W) | GetOp(key: K, inPlace: bool)

  ghost function Answers<K(!new), W>(root: Root<K, seq<W>>, hash: K -> Hash, ops: seq<Op<K, W>>): seq<set<W>>
    requires SetsOk(root, hash)
    decreases |ops|
  {
    if ops == [] then []
    else
      match ops[0]
      case AddOp(key, val) =>
        AddAdds(root, hash, key, val);
        Answers(Reach(AddAction, root, hash(key), (key, val)).0, hash, ops[1..])
      case DelOp(key, val) =>
        DelDeletes(root, hash, key, val);
        Answers(Reach(DelAction, root, hash(key), (key, val)).0, hash, ops[1..])
      case GetOp(key, inPlace) =>
        GetKeeps(root, hash, key);
        var (node, data) := Reach(GetAction, root, hash(key), (key, None));
        [Elements(data.1)] + Answers(if inPlace then node else root, hash, ops[1..])
  }

  /** What they would answer on a set of pairs. */
  ghost function PairAnswers<K(!new), W(!new)>(pairs: set<(K, W)>, ops: seq<Op<K, W>>): seq<set<W>>
    decreases |ops|
  {
    if ops == [] then []
    else
      match ops[0]
      case AddOp(key, val) => PairAnswers(pairs + {(key, val)}, ops[1..])
      case DelOp(key, val) => PairAnswers(pairs - {(key, val)}, ops[1..])
      case GetOp(key, _) => [Paired(pairs, key)] + PairAnswers(pairs, ops[1..])
  }

  ghost function Paired<K(!new), W(!new)>(pairs: set<(K, W)>, key: K): set<W> {
    set p | p in pairs && p.0 == key :: p.1
  }

  ghost predicate HoldsPairs<K(!new), W(!new)>(root: Root<K, seq<W>>, hash: K -> Hash, pairs: set<(K, W)>)
    requires TrieOk(root, [])
  {
    forall k: K :: Members(root, hash, k) == Paired(pairs, k)
  }

  /** Any run of additions, deletions and lookups answers as a set of pairs would. */
  lemma {:induction false} AnswersAsPairs<K(!new), W(!new)>(root: Root<K, seq<W>>, hash: K -> Hash,
                                                            ops: seq<Op<K, W>>, pairs: set<(K, W)>)
    requires SetsOk(root, hash) && HoldsPairs(root, hash, pairs)
    ensures Answers(root, hash, ops) == PairAnswers(pairs, ops)
    decreases |ops|
  {
    hide Reach, Members, TrieOk, Paired;
    if ops != [] {
      match ops[0]
      case AddOp(key, val) =>
        AddAdds(root, hash, key, val);
        AddPair(pairs, key, val);
        AnswersAsPairs(Reach(AddAction, root, hash(key), (key, val)).0, hash, ops[1..], pairs + {(key, val)});
      case DelOp(key, val) =>
        DelDeletes(root, hash, key, val);
        DelPair(pairs, key, val);
        AnswersAsPairs(Reach(DelAction, root, hash(key), (key, val)).0, hash, ops[1..], pairs - {(key, val)});
      case GetOp(key, inPlace) =>
        GetKeeps(root, hash, key);
        GetMembers(root, hash, key);
        AnswersAsPairs(if inPlace then Reach(GetAction, root, hash(key), (key, None)).0 else root, hash, ops[1..],
                       pairs);
    }
  }

  /** An empty dictionary is the empty set of pairs. */
  lemma EmptyHoldsPairs<K(!new), W(!new)>(hash: K -> Hash)
    ensures SetsOk<K, W>(None, hash) && HoldsPairs<K, W>(None, hash, {})
  {
    forall k: K
      ensures Paired<K, W>({}, k) == {}
    {
    }
  }

  lemma AddPair<K(!new), W(!new)>(pairs: set<(K, W)>, key: K, val: W)
    ensures forall k: K :: Paired(pairs + {(key, val)}, k) == Paired(pairs, k) + if k == key then {val} else {}
  {
    forall k: K, w: W
      ensures w in Paired(pairs + {(key, val)}, k) <==> w in Paired(pairs, k) || (k == key && w == val)
    {
      assert w in Paired(pairs, k) <==> (k, w) in pairs;
      assert w in Paired(pairs + {(key, val)}, k) <==> (k, w) in pairs + {(key, val)};
    }
  }

  lemma DelPair<K(!new), W(!new)>(pairs: set<(K, W)>, key: K, val: W)
    ensures forall k: K :: Paired(pairs - {(key, val)}, k) == Paired(pairs, k) - if k == key then {val} else {}
  {
    forall k: K, w: W
      ensures w in Paired(pairs - {(key, val)}, k) <==> w in Paired(pairs, k) && !(k == key && w == val)
    {
      assert w in Paired(pairs, k) <==> (k, w) in pairs;
      assert w in Paired(pairs - {(key, val)}, k) <==> (k, w) in pairs - {(key, val)};
    }
  }

  lemma GetMembers<K, W>(root: Root<K, seq<W>>, hash: K -> Hash, key: K)
    requires TrieOk(root, [])
    ensures Elements(ValueAt(root, hash, key)) == Members(root, hash, key)
  {
  }
}
