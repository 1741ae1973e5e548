/** What a walk over a dictionary or table lists is what can be looked up in it. */
module Enumerations {
  import opened Basics
  import opened Mapvecs
  import opened HashTries
  import opened Dictionaries
  import opened TrieEntries

  lemma {:induction false} InSlots<E>(slots: seq<Option<Node<E>>>, e: E)
    ensures e in SlotEntries(slots) <==> exists p: nat :: p < |slots| && e in OptEntries(slots[p])
  {
    if slots != [] {
      InSlots(slots[1..], e);
      if e in SlotEntries(slots[1..]) {
        var p: nat :| p < |slots[1..]| && e in OptEntries(slots[1..][p]);
        assert slots[p + 1] == slots[1..][p];
      }
      forall p: nat | p < |slots| && e in OptEntries(slots[p])
        ensures e in SlotEntries(slots)
      {
        if p > 0 {
          assert slots[1..][p - 1] == slots[p];
        }
      }
    }
  }

  /** An entry that is listed can be found. */
  lemma {:induction false} ListedIsFound<E>(node: Option<Node<E>>, path: seq<nat>, e: E) returns (h: nat)
    requires TrieOk(node, path) && e in OptEntries(node)
    ensures IsHash(h) && Leads(h, path) && e in Find(node, path, h)
    decreases LEVELS - |path|
  {
    hide Index, Get;
    match node
    case Some(Search(hash, entries)) =>
      h := hash;
    case Some(Dispatch(vec)) =>
      InSlots(vec.slots, e);
      var p: nat :| p < |vec.slots| && e in OptEntries(vec.slots[p]);
      var k := SlotIndex(vec, p);
      Subtrie(vec, path, k);
      h := ListedIsFound(Get(vec, k), path + [k], e);
      LeadsBack(h, path, k);
  }

  lemma LeadsBack(h: nat, path: seq<nat>, k: nat)
    requires Leads(h, path + [k])
    ensures Leads(h, path) && Index(h, BITS_PER_LEVEL * |path|) == k
  {
    hide Index;
    assert forall i :: 0 <= i < |path| ==> (path + [k])[i] == path[i];
    assert (path + [k])[|path|] == k;
  }

  /** An entry that can be found is listed. */
  lemma {:induction false} FoundIsListed<E>(node: Option<Node<E>>, path: seq<nat>, h: nat, e: E)
    requires TrieOk(node, path) && e in Find(node, path, h)
    ensures e in OptEntries(node)
    decreases LEVELS - |path|
  {
    hide Index, Get;
    match node
    case Some(Search(_, _)) =>
    case Some(Dispatch(vec)) =>
      var k := Index(h, BITS_PER_LEVEL * |path|);
      Subtrie(vec, path, k);
      FoundIsListed(Get(vec, k), path + [k], h, e);
      IndexSlot(vec, k);
      InSlots(vec.slots, e);
  }

  /** A dictionary lists exactly the pairs of a key and what it holds for the key. */
  lemma ListsContents<K, V>(root: Root<K, V>, hash: K -> Hash, key: K, val: V)
    requires RootOk(root, hash)
    ensures Entry(key, val) in OptEntries(root) <==> ValueAt(root, hash, key) == Some(val)
  {
    hide Find, TrieOk, OptEntries;
    var here := Find(root, [], hash(key));
    assert BucketOk(here, hash, hash(key));
    if Entry(key, val) in OptEntries(root) {
      var h := ListedIsFound(root, [], Entry(key, val));
      var g: Hash := h;
      assert BucketOk(Find(root, [], g), hash, g);
      var j :| 0 <= j < |Find(root, [], g)| && Find(root, [], g)[j] == Entry(key, val);
      assert hash(Find(root, [], g)[j].key) == g;
      AssocAt(here, j);
    }
    if ValueAt(root, hash, key) == Some(val) {
      assert Entry(key, val) == here[Position(here, key)];
      FoundIsListed(root, [], hash(key), Entry(key, val));
    }
  }

  /* Nothing is listed twice. */

  /** The entries of a node have hashes that lead to it. */
  ghost predicate AllLead<K, V>(entries: seq<Entry<K, V>>, hash: K -> Hash, path: seq<nat>) {
    forall i :: 0 <= i < |entries| ==> Leads(hash(entries[i].key), path)
  }

  /** Buckets of the hashes that lead to a node are in order. */
  ghost predicate BucketsOk<K, V>(node: Root<K, V>, path: seq<nat>, hash: K -> Hash)
    requires TrieOk(node, path)
  {
    forall h: Hash | Leads(h, path) :: BucketOk(Find(node, path, h), hash, h)
  }

  lemma {:induction false} ListedLead<K, V>(node: Root<K, V>, path: seq<nat>, hash: K -> Hash)
    requires TrieOk(node, path) && BucketsOk(node, path, hash)
    ensures AllLead(OptEntries(node), hash, path)
  {
    hide TrieOk, Find, Leads, OptEntries;
    var all := OptEntries(node);
    forall i | 0 <= i < |all|
      ensures Leads(hash(all[i].key), path)
    {
      var h: Hash := ListedIsFound(node, path, all[i]);
      assert BucketOk(Find(node, path, h), hash, h);
    }
  }

  lemma SubBuckets<K, V>(vec: Mapvec<Node<Entry<K, V>>>, path: seq<nat>, k: nat, hash: K -> Hash)
    requires TrieOk(Some(Dispatch(vec)), path) && BucketsOk(Some(Dispatch(vec)), path, hash) && k < 32
    ensures |path| < LEVELS && ValidVec(vec) && TrieOk(Get(vec, k), path + [k])
    ensures BucketsOk(Get(vec, k), path + [k], hash)
  {
    hide Index, Get, BucketOk;
    Subtrie(vec, path, k);
    forall h: Hash | Leads(h, path + [k])
      ensures BucketOk(Find(Get(vec, k), path + [k], h), hash, h)
    {
      LeadsBack(h, path, k);
      assert BucketOk(Find(Some(Dispatch(vec)), path, h), hash, h);
    }
  }

  /** Every key is listed once. */
  lemma {:induction false} ListsOnce<K, V>(node: Root<K, V>, path: seq<nat>, hash: K -> Hash)
    requires TrieOk(node, path) && BucketsOk(node, path, hash)
    ensures DistinctKeys(OptEntries(node))
    decreases LEVELS - |path|, 1, 0
  {
    hide Index, Get, Leads;
    match node
    case None =>
    case Some(Search(h, entries)) =>
      var g: Hash := h;
      assert BucketOk(Find(node, path, g), hash, g);
    case Some(Dispatch(vec)) =>
      SlotsOnce(vec, path, 0, hash);
      assert vec.slots[0..] == vec.slots;
  }

  lemma {:induction false} SlotsOnce<K, V>(vec: Mapvec<Node<Entry<K, V>>>, path: seq<nat>, p: nat, hash: K -> Hash)
    requires TrieOk(Some(Dispatch(vec)), path) && BucketsOk(Some(Dispatch(vec)), path, hash) && p <= |vec.slots|
    ensures DistinctKeys(SlotEntries(vec.slots[p..])) && AllLead(SlotEntries(vec.slots[p..]), hash, path)
    ensures forall i :: 0 <= i < |SlotEntries(vec.slots[p..])| ==>
              InSlotFrom(vec, path, hash(SlotEntries(vec.slots[p..])[i].key), p)
    decreases LEVELS - |path|, 0, |vec.slots| - p
  {
    hide Index, Get, Leads, BucketsOk, TrieOk;
    if p < |vec.slots| {
      assert ValidVec(vec) by { Subtrie(vec, path, 0); }
      SlotAt(vec.slots, p);
      SlotsOnce(vec, path, p + 1, hash);
      var k := SlotIndex(vec, p);
      SubBuckets(vec, path, k, hash);
      ListsOnce(Get(vec, k), path + [k], hash);
      ListedLead(Get(vec, k), path + [k], hash);
      var here, after := OptEntries(vec.slots[p]), SlotEntries(vec.slots[p + 1..]);
      forall i | 0 <= i < |here|
        ensures Leads(hash(here[i].key), path) && Index(hash(here[i].key), BITS_PER_LEVEL * |path|) == k
      {
        LeadsBack(hash(here[i].key), path, k);
      }
    }
  }

  /** The hash leads to one of the slots from a place on. */
  ghost predicate InSlotFrom<K, V>(vec: Mapvec<Node<Entry<K, V>>>, path: seq<nat>, h: nat, p: nat) {
    CountBelow(Full(vec), Index(h, BITS_PER_LEVEL * |path|)) >= p
  }

  lemma DictionaryListsOnce<K, V>(root: Root<K, V>, hash: K -> Hash)
    requires RootOk(root, hash)
    ensures DistinctKeys(OptEntries(root))
  {
    hide Find, TrieOk, OptEntries;
    ListsOnce(root, [], hash);
  }
}
