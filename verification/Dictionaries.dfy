/** Dictionaries: hash tries of keys and values, seen as finite maps. */
module Dictionaries {
  import opened Basics
  import opened HashTries

  datatype Entry<K, V> = Entry(key: K, val: V)

  type Hash = h: nat | h < 0x4000_0000

  type Root<K, V> = Option<Node<Entry<K, V>>>

  /* Search nodes. */

  /** The first entry with a key, or the length. */
  function Position<K(==), V>(entries: seq<Entry<K, V>>, key: K): (i: nat)
    ensures i <= |entries|
    ensures forall j :: 0 <= j < i ==> entries[j].key != key
    ensures i < |entries| ==> entries[i].key == key
  {
    if entries == [] || entries[0].key == key then 0 else 1 + Position(entries[1..], key)
  }

  method FindKey<K(==), V>(entries: seq<Entry<K, V>>, key: K) returns (i: nat)
    ensures i == Position(entries, key)
  {
    i := 0;
    while i < |entries| && entries[i].key != key
      invariant i <= |entries|
      invariant forall j :: 0 <= j < i ==> entries[j].key != key
    {
      i := i + 1;
    }
  }

  function Assoc<K(==), V>(entries: seq<Entry<K, V>>, key: K): Option<V> {
    var i := Position(entries, key);
    if i < |entries| then Some(entries[i].val) else None
  }

  /** Associates a key with a value, or with none. */
  function Put<K(==), V>(entries: seq<Entry<K, V>>, key: K, val: Option<V>): seq<Entry<K, V>> {
    var i := Position(entries, key);
    if i < |entries| then
      match val {
        case Some(v) => entries[i := Entry(key, v)]
        case None => entries[..i] + entries[i + 1..]
      }
    else
      match val {
        case Some(v) => entries + [Entry(key, v)]
        case None => entries
      }
  }

  predicate DistinctKeys<K(==), V>(entries: seq<Entry<K, V>>) {
    forall i, j :: 0 <= i < j < |entries| ==> entries[i].key != entries[j].key
  }

  /** The entries of a search node have its hash. */
  predicate Hashed<K, V>(entries: seq<Entry<K, V>>, hash: K -> Hash, h: nat) {
    forall i :: 0 <= i < |entries| ==> hash(entries[i].key) == h
  }

  lemma AssocAt<K, V>(entries: seq<Entry<K, V>>, j: nat)
    requires DistinctKeys(entries) && j < |entries|
    ensures Assoc(entries, entries[j].key) == Some(entries[j].val)
  {
    var i := Position(entries, entries[j].key);
    assert i == j;
  }

  lemma AssocNone<K, V>(entries: seq<Entry<K, V>>, key: K)
    requires forall j :: 0 <= j < |entries| ==> entries[j].key != key
    ensures Assoc(entries, key) == None
  {
  }

  lemma PutDistinct<K, V>(entries: seq<Entry<K, V>>, key: K, val: Option<V>)
    requires DistinctKeys(entries)
    ensures DistinctKeys(Put(entries, key, val))
  {
  }

  lemma PutAssoc<K, V>(entries: seq<Entry<K, V>>, key: K, val: Option<V>, k: K)
    requires DistinctKeys(entries)
    ensures DistinctKeys(Put(entries, key, val))
    ensures Assoc(Put(entries, key, val), k) == if k == key then val else Assoc(entries, k)
  {
    hide Assoc;
    PutDistinct(entries, key, val);
    var i, p := Position(entries, key), Position(entries, k);
    var now := Put(entries, key, val);
    if k == key && val.Some? {
      AssocAt(now, i);
    } else if k == key {
      AssocNone(now, key);
    } else if p < |entries| {
      AssocAt(now, if val.None? && i < p then p - 1 else p);
      AssocAt(entries, p);
    } else {
      AssocNone(now, k);
      AssocNone(entries, k);
    }
  }

  /* Whole tries. */

  /** Every hash has at most one entry per key, and only entries of its own. */
  ghost predicate RootOk<K, V>(root: Root<K, V>, hash: K -> Hash) {
    && TrieOk(root, [])
    && forall h: Hash :: BucketOk(Find(root, [], h), hash, h)
  }

  ghost predicate BucketOk<K, V>(entries: seq<Entry<K, V>>, hash: K -> Hash, h: nat) {
    DistinctKeys(entries) && Hashed(entries, hash, h)
  }

  ghost function ValueAt<K, V>(root: Root<K, V>, hash: K -> Hash, key: K): Option<V>
    requires TrieOk(root, [])
  {
    Assoc(Find(root, [], hash(key)), key)
  }

  function Reach<K(==), V(==), D>(action: Action<Entry<K, V>, D>, root: Root<K, V>, h: Hash, data: D): (Root<K, V>, D)
    requires TrieOk(root, [])
  {
    Lookup(action, root, 0, [], h, data)
  }

  /** An action that puts in the search node of a key puts in the whole trie. */
  lemma ReachPuts<K(!new), V, D>(action: Action<Entry<K, V>, D>, root: Root<K, V>, hash: K -> Hash, key: K, data: D,
                                 val: Option<V>)
    requires RootOk(root, hash)
    requires var here := Find(root, [], hash(key));
             action(Bucket(hash(key), here), hash(key), data).0 == Bucket(hash(key), Put(here, key, val))
    ensures var now := Reach(action, root, hash(key), data);
            && RootOk(now.0, hash)
            && now.1 == action(Bucket(hash(key), Find(root, [], hash(key))), hash(key), data).1
            && forall k: K :: ValueAt(now.0, hash, k) == if k == key then val else ValueAt(root, hash, k)
  {
    hide Find, TrieOk, Assoc, Lookup, Put, DistinctKeys, Index;
    var h, here := hash(key), Find(root, [], hash(key));
    assert Leads(h, []);
    LookupActs(action, root, [], h, data);
    var now := Reach(action, root, h, data);
    assert Find(now.0, [], h) == Put(here, key, val);
    PutDistinct(here, key, val);
    PutHashed(here, key, val, hash);
    forall g: Hash
      ensures BucketOk(Find(now.0, [], g), hash, g)
    {
      assert Leads(g, []) && IsHash(g);
      assert BucketOk(Find(root, [], g), hash, g);
    }
    forall k: K
      ensures ValueAt(now.0, hash, k) == if k == key then val else ValueAt(root, hash, k)
    {
      assert Leads(hash(k), []) && IsHash(hash(k));
      PutAssoc(here, key, val, k);
    }
  }

  lemma PutHashed<K, V>(entries: seq<Entry<K, V>>, key: K, val: Option<V>, hash: K -> Hash)
    requires Hashed(entries, hash, hash(key))
    ensures Hashed(Put(entries, key, val), hash, hash(key))
  {
  }

  /** Looks a key up without changing anything. */
  function GetAction<K(==), V>(node: Root<K, V>, h: nat, data: (K, Option<V>)): (Root<K, V>, (K, Option<V>)) {
    match node
    case None => (node, (data.0, None))
    case Some(Search(_, entries)) =>
      var i := Position(entries, data.0);
      (node, (data.0, if i < |entries| then Some(entries[i].val) else None))
    case Some(Dispatch(_)) => (node, data)
  }

  lemma PutBack<K, V>(entries: seq<Entry<K, V>>, key: K)
    ensures Put(entries, key, Assoc(entries, key)) == entries
  {
  }

  lemma GetActionPuts<K, V>(entries: seq<Entry<K, V>>, h: nat, key: K)
    ensures GetAction(Bucket(h, entries), h, (key, None))
            == (Bucket(h, Put(entries, key, Assoc(entries, key))), (key, Assoc(entries, key)))
  {
    PutBack(entries, key);
  }

  /** Looking up may split nodes, but what it leaves holds the same. */
  lemma GetGets<K(!new), V>(root: Root<K, V>, hash: K -> Hash, key: K)
    requires RootOk(root, hash)
    ensures var now := Reach(GetAction, root, hash(key), (key, None));
            && RootOk(now.0, hash) && now.1 == (key, ValueAt(root, hash, key))
            && forall k: K :: ValueAt(now.0, hash, k) == ValueAt(root, hash, k)
  {
    hide GetAction, Find, TrieOk, Reach, Put, Bucket, Assoc;
    var here := Find(root, [], hash(key));
    GetActionPuts(here, hash(key), key);
    ReachPuts(GetAction, root, hash, key, (key, None), Assoc(here, key));
  }

  /* Dictionaries with one value per key.  A null value deletes the key, but put into the
     search node of other keys it stays there as an entry. */

  function SetAction<K(==), V>(node: Root<K, Option<V>>, h: nat, data: (K, Option<V>))
    : (Root<K, Option<V>>, (K, Option<V>))
  {
    var (key, val) := data;
    match node
    case None => (if val.None? then None else Some(Search(h, [Entry(key, val)])), data)
    case Some(Search(own, entries)) =>
      var i := Position(entries, key);
      if i < |entries| then
        if val.None? then
          (if |entries| == 1 then None else Some(Search(own, entries[..i] + entries[i + 1..])), data)
        else (Some(Search(own, entries[i := Entry(key, val)])), data)
      else (Some(Search(own, entries + [Entry(key, val)])), data)
    case Some(Dispatch(_)) => (node, data)
  }

  ghost function DictValue<K, V>(root: Root<K, Option<V>>, hash: K -> Hash, key: K): Option<V>
    requires TrieOk(root, [])
  {
    Flat(ValueAt(root, hash, key))
  }

  /** A stored null reads as no value. */
  function Flat<V>(val: Option<Option<V>>): Option<V> {
    if val.Some? then val.value else None
  }

  /** What setting a value puts into the search node. */
  ghost function Given<K, V>(entries: seq<Entry<K, Option<V>>>, key: K, val: Option<V>): Option<Option<V>> {
    if val.Some? || (entries != [] && Assoc(entries, key).None?) then Some(val) else None
  }

  lemma SetActionPuts<K, V>(entries: seq<Entry<K, Option<V>>>, h: nat, key: K, val: Option<V>)
    ensures SetAction(Bucket(h, entries), h, (key, val)).0 == Bucket(h, Put(entries, key, Given(entries, key, val)))
  {
    var i := Position(entries, key);
    if entries == [] {
      assert entries + [Entry(key, val)] == [Entry(key, val)];
    } else if i < |entries| && val.None? {
      assert |entries[..i] + entries[i + 1..]| == |entries| - 1;
    }
  }

  /** Setting a value changes what the dictionary holds for its key only. */
  lemma SetSets<K(!new), V>(root: Root<K, Option<V>>, hash: K -> Hash, key: K, val: Option<V>)
    requires RootOk(root, hash)
    ensures var now := Reach(SetAction, root, hash(key), (key, val)).0;
            && RootOk(now, hash)
            && forall k: K :: DictValue(now, hash, k) == if k == key then val else DictValue(root, hash, k)
  {
    hide SetAction, Find, TrieOk, Reach, Put, Bucket, Assoc;
    var here := Find(root, [], hash(key));
    SetActionPuts(here, hash(key), key, val);
    ReachPuts(SetAction, root, hash, key, (key, val), Given(here, key, val));
  }

  class Dict<K(==, !new), V(==)> {
    const hash: K -> Hash
    var root: Root<K, Option<V>>

    ghost predicate Valid()
      reads this
    {
      RootOk(root, hash)
    }

    ghost function Value(key: K): Option<V>
      requires Valid()
      reads this
    {
      DictValue(root, hash, key)
    }

    constructor (hash: K -> Hash, root: Root<K, Option<V>>)
      requires RootOk(root, hash)
      ensures this.hash == hash && this.root == root && Valid()
    {
      this.hash := hash;
      this.root := root;
    }

    method Set(key: K, val: Option<V>)
      requires Valid()
      modifies this
      ensures Valid()
      ensures forall k: K :: Value(k) == if k == key then val else old(Value(k))
    {
      SetSets(root, hash, key, val);
      root := Reach(SetAction, root, hash(key), (key, val)).0;
    }

    /** The new root of a lookup is dropped, unless the root is an unstored object, which a
        lookup updates in place. */
    method Get(key: K, inPlace: bool) returns (val: Option<V>)
      requires Valid()
      modifies this
      ensures Valid()
      ensures val == old(Value(key))
      ensures forall k: K :: Value(k) == old(Value(k))
    {
      GetGets(root, hash, key);
      var (node, data) := Reach(GetAction, root, hash(key), (key, None));
      if inPlace {
        root := node;
      }
      val := Flat(data.1);
    }
  }

  /* Runs. */

  datatype Op<K, V> = SetOp(key: K, val: Option<V>) | GetOp(key: K, inPlace: bool)

  /** What the lookups of a run of operations answer. */
  ghost function Answers<K(!new), V>(root: Root<K, Option<V>>, hash: K -> Hash, ops: seq<Op<K, V>>): seq<Option<V>>
    requires RootOk(root, hash)
    decreases |ops|
  {
    if ops == [] then []
    else
      match ops[0]
      case SetOp(key, val) =>
        SetSets(root, hash, key, val);
        Answers(Reach(SetAction, root, hash(key), (key, val)).0, hash, ops[1..])
      case GetOp(key, inPlace) =>
        GetGets(root, hash, key);
        var (node, data) := Reach(GetAction, root, hash(key), (key, None));
        [Flat(data.1)] + Answers(if inPlace then node else root, hash, ops[1..])
  }

  /** What they would answer on a map. */
  function MapAnswers<K(==), V>(m: map<K, V>, ops: seq<Op<K, V>>): seq<Option<V>>
    decreases |ops|
  {
    if ops == [] then []
    else
      match ops[0]
      case SetOp(key, Some(val)) => MapAnswers(m[key := val], ops[1..])
      case SetOp(key, None) => MapAnswers(m - {key}, ops[1..])
      case GetOp(key, _) => [if key in m then Some(m[key]) else None] + MapAnswers(m, ops[1..])
  }

  ghost predicate Holds<K(!new), V>(root: Root<K, Option<V>>, hash: K -> Hash, m: map<K, V>)
    requires TrieOk(root, [])
  {
    forall k: K :: DictValue(root, hash, k) == if k in m then Some(m[k]) else None
  }

  /** Any run on a dictionary answers as a map would, whatever the hashes are. */
  lemma {:induction false} AnswersAsMap<K(!new), V>(root: Root<K, Option<V>>, hash: K -> Hash, ops: seq<Op<K, V>>,
                                                    m: map<K, V>)
    requires RootOk(root, hash) && Holds(root, hash, m)
    ensures Answers(root, hash, ops) == MapAnswers(m, ops)
    decreases |ops|
  {
    hide Reach, ValueAt, TrieOk;
    if ops != [] {
      match ops[0]
      case SetOp(key, val) =>
        SetSets(root, hash, key, val);
        AnswersAsMap(Reach(SetAction, root, hash(key), (key, val)).0, hash, ops[1..],
                     if val.Some? then m[key := val.value] else m - {key});
      case GetOp(key, inPlace) =>
        GetGets(root, hash, key);
        AnswersAsMap(if inPlace then Reach(GetAction, root, hash(key), (key, None)).0 else root, hash, ops[1..], m);
    }
  }

  /** An empty dictionary is the empty map. */
  lemma EmptyHolds<K(!new), V>(hash: K -> Hash)
    ensures RootOk<K, Option<V>>(None, hash) && Holds<K, V>(None, hash, map[])
  {
  }
}
