/** The hash tries behind tables and dictionaries.  A search node holds the entries of one
    hash, a dispatch node has up to 32 subtrees, picked by five bits of the hash. */
module HashTries {
  import opened Basics
  import opened Mapvecs

  const BITS_PER_LEVEL := 5
  const LEVELS := 6

  datatype Node<E> =
    | Search(hash: nat, entries: seq<E>)
    | Dispatch(vec: Mapvec<Node<E>>)

  /** What a lookup does once it has reached the place of its hash. */
  type Action<!E, !D> = (Option<Node<E>>, nat, D) -> (Option<Node<E>>, D)

  /** Hashes have 30 bits. */
  predicate IsHash(hash: nat) {
    hash < 0x4000_0000
  }

  /** The bits of a hash that pick a subtree at a level. */
  function Index(hash: nat, shift: nat): (k: nat)
    ensures k < 32
  {
    (hash / Pow2(shift)) % 32
  }

  /** A hash leads to the node at the end of a path of indices. */
  ghost predicate Leads(hash: nat, path: seq<nat>) {
    forall i :: 0 <= i < |path| ==> Index(hash, BITS_PER_LEVEL * i) == path[i]
  }

  /** Search nodes are where their hash leads and are not empty; there are six levels of
      dispatch nodes at most. */
  ghost predicate TrieOk<E>(node: Option<Node<E>>, path: seq<nat>)
    decreases LEVELS - |path|
  {
    && |path| <= LEVELS
    && match node {
       case None => true
       case Some(Search(hash, entries)) => IsHash(hash) && Leads(hash, path) && entries != []
       case Some(Dispatch(vec)) => |path| < LEVELS && ValidVec(vec) && SubtriesOk(vec, path)
     }
  }

  ghost predicate SubtriesOk<E>(vec: Mapvec<Node<E>>, path: seq<nat>)
    requires |path| < LEVELS && ValidVec(vec)
    decreases LEVELS - |path|, 0
  {
    forall k: nat | k < 32 :: TrieOk(Get(vec, k), path + [k])
  }

  /** The entries with a given hash. */
  ghost function Find<E>(node: Option<Node<E>>, path: seq<nat>, hash: nat): seq<E>
    requires TrieOk(node, path)
    decreases LEVELS - |path|
  {
    hide Get, Index;
    match node
    case None => []
    case Some(Search(h, entries)) => if h == hash then entries else []
    case Some(Dispatch(vec)) =>
      var k := Index(hash, BITS_PER_LEVEL * |path|);
      Subtrie(vec, path, k);
      Find(Get(vec, k), path + [k], hash)
  }

  lemma Subtrie<E>(vec: Mapvec<Node<E>>, path: seq<nat>, k: nat)
    requires TrieOk(Some(Dispatch(vec)), path) && k < 32
    ensures |path| < LEVELS && ValidVec(vec) && TrieOk(Get(vec, k), path + [k])
  {
    hide Get, ValidVec;
    assert SubtriesOk(vec, path);
  }

  lemma LeadsOn(hash: nat, path: seq<nat>)
    requires Leads(hash, path)
    ensures Leads(hash, path + [Index(hash, BITS_PER_LEVEL * |path|)])
  {
    hide Index;
  }

  /* Hashes and their indices. */

  lemma LowBits(hash: nat, shift: nat)
    ensures hash % Pow2(shift + BITS_PER_LEVEL) == hash % Pow2(shift) + Index(hash, shift) * Pow2(shift)
  {
    FivePow(shift);
    Digit(hash, Pow2(shift), Index(hash, shift));
  }

  lemma Digit(hash: nat, p: nat, k: nat)
    requires p >= 1 && k == (hash / p) % 32
    ensures hash % (32 * p) == hash % p + k * p
  {
    var q, r := hash / p, hash % p;
    Distribute(p, q / 32, k);
    DigitBound(p, k, r);
    assert hash == (32 * p) * (q / 32) + (k * p + r);
    ModUnique(hash, 32 * p, q / 32, k * p + r);
  }

  lemma Distribute(p: nat, q: nat, k: nat)
    ensures p * (32 * q + k) == (32 * p) * q + k * p
  {
  }

  lemma DigitBound(p: nat, k: nat, r: nat)
    requires k < 32 && r < p
    ensures 0 <= k * p && k * p + r < 32 * p
  {
    var left := 31 - k;
    assert left * p >= 0;
    assert k * p + left * p == 31 * p;
  }

  lemma FivePow(shift: nat)
    ensures Pow2(shift + BITS_PER_LEVEL) == 32 * Pow2(shift)
  {
    assert Pow2(5) == 32;
    PowAdd(shift, 5);
  }

  lemma {:induction false} SameLowBits(h: nat, g: nat, path: seq<nat>)
    requires Leads(h, path) && Leads(g, path)
    ensures h % Pow2(BITS_PER_LEVEL * |path|) == g % Pow2(BITS_PER_LEVEL * |path|)
  {
    hide Index;
    if path == [] {
      assert Pow2(0) == 1;
    } else {
      var n := |path| - 1;
      assert Leads(h, path[..n]) && Leads(g, path[..n]);
      SameLowBits(h, g, path[..n]);
      assert Index(h, BITS_PER_LEVEL * n) == path[n] == Index(g, BITS_PER_LEVEL * n);
      LowBits(h, BITS_PER_LEVEL * n);
      LowBits(g, BITS_PER_LEVEL * n);
      assert BITS_PER_LEVEL * |path| == BITS_PER_LEVEL * n + BITS_PER_LEVEL;
    }
  }

  /** Below the last dispatch level all of the hash has been used. */
  lemma WholeHash(h: nat, g: nat, path: seq<nat>)
    requires |path| == LEVELS && Leads(h, path) && Leads(g, path) && IsHash(h) && IsHash(g)
    ensures h == g
  {
    hide Pow2, Leads, Index;
    SameLowBits(h, g, path);
    WordIsPow();
    assert BITS_PER_LEVEL * |path| == 30;
  }

  /* Looking up. */

  /** Looks up a hash and lets an action replace the search node of that hash. */
  function Lookup<E(==), D>(action: Action<E, D>, node: Option<Node<E>>, shift: nat, ghost path: seq<nat>, hash: nat,
                            data: D)
    : (Option<Node<E>>, D)
    requires TrieOk(node, path) && shift == BITS_PER_LEVEL * |path| && IsHash(hash) && Leads(hash, path)
    decreases LEVELS - |path|
  {
    hide Get, Set, Index, Leads;
    match node
    case None => action(node, hash, data)
    case Some(Search(h, entries)) =>
      if h == hash then action(node, hash, data)
      else
        SplitOk(node.value, path, hash);
        var k := Index(hash, shift);
        var split := Set(NewVec(), Index(h, shift), node);
        Subtrie(split, path, k);
        LeadsOn(hash, path);
        var (entry, result) := Lookup(action, Get(split, k), shift + BITS_PER_LEVEL, path + [k], hash, data);
        (Some(Dispatch(Set(split, k, entry))), result)
    case Some(Dispatch(vec)) =>
      var k := Index(hash, shift);
      Subtrie(vec, path, k);
      LeadsOn(hash, path);
      var (entry, result) := Lookup(action, Get(vec, k), shift + BITS_PER_LEVEL, path + [k], hash, data);
      (if entry != Get(vec, k) then Some(Dispatch(Set(vec, k, entry))) else node, result)
  }

  /** A search node with another hash can be moved a level down. */
  lemma SplitOk<E>(node: Node<E>, path: seq<nat>, hash: nat)
    requires TrieOk(Some(node), path) && node.Search? && node.hash != hash
    requires IsHash(hash) && Leads(hash, path)
    ensures |path| < LEVELS && ValidVec(NewVec<Node<E>>())
    ensures var split := Set(NewVec(), Index(node.hash, BITS_PER_LEVEL * |path|), Some(node));
            ValidVec(split) && SubtriesOk(split, path) && TrieOk(Some(Dispatch(split)), path)
    ensures forall g: nat ::
              Find(Some(Dispatch(Set(NewVec(), Index(node.hash, BITS_PER_LEVEL * |path|), Some(node)))), path, g)
              == Find(Some(node), path, g)
  {
    hide Pow2, Set, Get, Bit, CountBelow, Index, ValidVec;
    if |path| == LEVELS {
      WholeHash(node.hash, hash, path);
    }
    var j := Index(node.hash, BITS_PER_LEVEL * |path|);
    NewVecEmpty<Node<E>>(0);
    var split := Set(NewVec(), j, Some(node));
    SetGet(NewVec(), j, Some(node), j);
    forall k: nat | k < 32
      ensures Get(split, k) == if k == j then Some(node) else None
    {
      NewVecEmpty<Node<E>>(k);
      SetGet(NewVec(), j, Some(node), k);
    }
  }

  function Bucket<E>(hash: nat, entries: seq<E>): Option<Node<E>> {
    if entries == [] then None else Some(Search(hash, entries))
  }

  /** What an action may leave behind for a hash. */
  predicate IsBucket<E>(node: Option<Node<E>>, hash: nat) {
    node.None? || (node.value.Search? && node.value.hash == hash && node.value.entries != [])
  }

  function EntriesOf<E>(node: Option<Node<E>>, hash: nat): seq<E>
    requires IsBucket(node, hash)
  {
    if node.None? then [] else node.value.entries
  }

  /** Exchanging a subtree changes what is found below its index and nothing else. */
  lemma SubtrieSet<E>(vec: Mapvec<Node<E>>, path: seq<nat>, k: nat, entry: Option<Node<E>>)
    requires TrieOk(Some(Dispatch(vec)), path) && k < 32 && TrieOk(entry, path + [k])
    ensures |path| < LEVELS && ValidVec(vec) && TrieOk(Some(Dispatch(Set(vec, k, entry))), path)
    ensures forall g: nat ::
              Find(Some(Dispatch(Set(vec, k, entry))), path, g)
              == if Index(g, BITS_PER_LEVEL * |path|) == k then Find(entry, path + [k], g)
                 else Find(Some(Dispatch(vec)), path, g)
  {
    hide Set, Get, Index, ValidVec;
    Subtrie(vec, path, k);
    SetGet(vec, k, entry, k);
    forall j: nat | j < 32
      ensures Get(Set(vec, k, entry), j) == if j == k then entry else Get(vec, j)
      ensures TrieOk(Get(Set(vec, k, entry), j), path + [j])
    {
      SetGet(vec, k, entry, j);
      Subtrie(vec, path, j);
    }
  }

  /** A lookup changes the bucket of its hash as the action does, and leaves every other
      bucket as it was, however many nodes it splits. */
  lemma {:induction false} LookupActs<E, D>(action: Action<E, D>, node: Option<Node<E>>, path: seq<nat>, hash: nat,
                                            data: D)
    requires TrieOk(node, path) && IsHash(hash) && Leads(hash, path)
    requires IsBucket(action(Bucket(hash, Find(node, path, hash)), hash, data).0, hash)
    ensures var was := action(Bucket(hash, Find(node, path, hash)), hash, data);
            var now := Lookup(action, node, BITS_PER_LEVEL * |path|, path, hash, data);
            && TrieOk(now.0, path) && now.1 == was.1
            && Find(now.0, path, hash) == EntriesOf(was.0, hash)
            && Elsewhere(now.0, node, path, hash)
    decreases LEVELS - |path|, 1
  {
    hide Set, Get, Index, ValidVec, Leads;
    match node
    case None =>
    case Some(Search(h, entries)) =>
      if h != hash {
        SplitOk(node.value, path, hash);
        SubtrieActs(action, Set(NewVec(), Index(h, BITS_PER_LEVEL * |path|), node), path, hash, data);
      }
    case Some(Dispatch(vec)) =>
      SubtrieActs(action, vec, path, hash, data);
  }

  /** The entries of all other hashes that lead here are the same. */
  ghost predicate Elsewhere<E>(now: Option<Node<E>>, was: Option<Node<E>>, path: seq<nat>, hash: nat)
    requires TrieOk(now, path) && TrieOk(was, path)
  {
    forall g: nat | IsHash(g) && Leads(g, path) && g != hash :: Find(now, path, g) == Find(was, path, g)
  }

  lemma {:induction false} SubtrieActs<E, D>(action: Action<E, D>, vec: Mapvec<Node<E>>, path: seq<nat>, hash: nat,
                                             data: D)
    requires TrieOk(Some(Dispatch(vec)), path) && IsHash(hash) && Leads(hash, path)
    requires IsBucket(action(Bucket(hash, Find(Some(Dispatch(vec)), path, hash)), hash, data).0, hash)
    ensures |path| < LEVELS && ValidVec(vec)
    ensures var k := Index(hash, BITS_PER_LEVEL * |path|);
            TrieOk(Get(vec, k), path + [k]) && Leads(hash, path + [k])
    ensures var k := Index(hash, BITS_PER_LEVEL * |path|);
            var was := action(Bucket(hash, Find(Some(Dispatch(vec)), path, hash)), hash, data);
            var now := Lookup(action, Get(vec, k), BITS_PER_LEVEL * (|path| + 1), path + [k], hash, data);
            var node := Some(Dispatch(Set(vec, k, now.0)));
            && TrieOk(node, path) && now.1 == was.1
            && Find(node, path, hash) == EntriesOf(was.0, hash)
            && Elsewhere(node, Some(Dispatch(vec)), path, hash)
            && TrieOk(now.0, path + [k]) && Find(now.0, path + [k], hash) == EntriesOf(was.0, hash)
    decreases LEVELS - |path|, 0
  {
    hide Set, Get, Index, ValidVec, Leads;
    var k := Index(hash, BITS_PER_LEVEL * |path|);
    Subtrie(vec, path, k);
    LeadsOn(hash, path);
    LookupActs(action, Get(vec, k), path + [k], hash, data);
    var now := Lookup(action, Get(vec, k), BITS_PER_LEVEL * (|path| + 1), path + [k], hash, data);
    SubtrieSet(vec, path, k, now.0);
    forall g: nat | IsHash(g) && Leads(g, path) && Index(g, BITS_PER_LEVEL * |path|) == k
      ensures Leads(g, path + [k])
    {
      LeadsOn(g, path);
    }
  }
}
