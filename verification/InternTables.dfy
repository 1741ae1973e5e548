/** Tables of objects, one for each content.  An object is its content and the address where
    it is stored. */
module InternTables {
  import opened Basics
  import opened HashTries
  import opened Dictionaries

  /** Finds the object with the content of the one given, or stores the one given. */
  function InternAction<C(==), A>(node: Root<C, A>, h: nat, obj: Entry<C, A>): (Root<C, A>, Entry<C, A>) {
    match node
    case None => (Some(Search(h, [obj])), obj)
    case Some(Search(own, objs)) =>
      var i := Position(objs, obj.key);
      if i < |objs| then (node, objs[i]) else (Some(Search(own, objs + [obj])), obj)
    case Some(Dispatch(_)) => (node, obj)
  }

  /** Finds the object with a content, if there is one. */
  function SoftAction<C(==), A>(node: Root<C, A>, h: nat, data: (C, Option<Entry<C, A>>))
    : (Root<C, A>, (C, Option<Entry<C, A>>))
  {
    match node
    case None => (None, data)
    case Some(Search(own, objs)) =>
      var i := Position(objs, data.0);
      (node, (data.0, if i < |objs| then Some(objs[i]) else data.1))
    case Some(Dispatch(_)) => (node, data)
  }

  /** The object that stands for a content once it has been interned. */
  function Interned<C, A>(was: Option<A>, obj: Entry<C, A>): Entry<C, A> {
    Entry(obj.key, if was.Some? then was.value else obj.val)
  }

  lemma InternActionPuts<C, A>(objs: seq<Entry<C, A>>, h: nat, obj: Entry<C, A>)
    ensures var r := Interned(Assoc(objs, obj.key), obj);
            InternAction(Bucket(h, objs), h, obj) == (Bucket(h, Put(objs, obj.key, Some(r.val))), r)
  {
    PutBack(objs, obj.key);
    if objs == [] {
      assert objs + [obj] == [obj];
    }
  }

  lemma SoftActionPuts<C, A>(objs: seq<Entry<C, A>>, h: nat, content: C)
    ensures var was := Assoc(objs, content);
            SoftAction(Bucket(h, objs), h, (content, None))
            == (Bucket(h, Put(objs, content, was)),
                (content, if was.Some? then Some(Entry(content, was.value)) else None))
  {
    PutBack(objs, content);
  }

  /** Interning gives the object already there for a content, or else the one offered, and
      then keeps that one. */
  lemma InternInterns<C(!new), A>(root: Root<C, A>, hash: C -> Hash, obj: Entry<C, A>)
    requires RootOk(root, hash)
    ensures var now := Reach(InternAction, root, hash(obj.key), obj);
            var r := Interned(ValueAt(root, hash, obj.key), obj);
            && RootOk(now.0, hash) && now.1 == r
            && forall c: C :: ValueAt(now.0, hash, c) == if c == obj.key then Some(r.val) else ValueAt(root, hash, c)
  {
    hide InternAction, Find, TrieOk, Reach, Put, Bucket, Assoc;
    var here := Find(root, [], hash(obj.key));
    InternActionPuts(here, hash(obj.key), obj);
    ReachPuts(InternAction, root, hash, obj.key, obj, Some(Interned(Assoc(here, obj.key), obj).val));
  }

  /** A soft lookup finds what there is, and does not add to the table, although it may
      split its nodes. */
  lemma SoftFinds<C(!new), A>(root: Root<C, A>, hash: C -> Hash, content: C)
    requires RootOk(root, hash)
    ensures var now := Reach(SoftAction, root, hash(content), (content, None));
            var was := ValueAt(root, hash, content);
            && RootOk(now.0, hash)
            && now.1.1 == (if was.Some? then Some(Entry(content, was.value)) else None)
            && forall c: C :: ValueAt(now.0, hash, c) == ValueAt(root, hash, c)
  {
    hide SoftAction, Find, TrieOk, Reach, Put, Bucket, Assoc;
    var here := Find(root, [], hash(content));
    SoftActionPuts(here, hash(content), content);
    ReachPuts(SoftAction, root, hash, content, (content, None), Assoc(here, content));
  }

  class Table<C(==, !new), A(==)> {
    const hash: C -> Hash
    var root: Root<C, A>

    ghost predicate Valid()
      reads this
    {
      RootOk(root, hash)
    }

    ghost function Address(content: C): Option<A>
      requires Valid()
      reads this
    {
      ValueAt(root, hash, content)
    }

    constructor (hash: C -> Hash, root: Root<C, A>)
      requires RootOk(root, hash)
      ensures this.hash == hash && this.root == root && Valid()
    {
      this.hash := hash;
      this.root := root;
    }

    method Intern(obj: Entry<C, A>) returns (r: Entry<C, A>)
      requires Valid()
      modifies this
      ensures Valid()
      ensures r == Interned(old(Address(obj.key)), obj)
      ensures forall c: C :: Address(c) == if c == obj.key then Some(r.val) else old(Address(c))
    {
      InternInterns(root, hash, obj);
      var (node, found) := Reach(InternAction, root, hash(obj.key), obj);
      root := node;
      r := found;
    }

    method InternSoft(content: C) returns (r: Option<Entry<C, A>>)
      requires Valid()
      modifies this
      ensures Valid()
      ensures r.Some? <==> old(Address(content)).Some?
      ensures r.Some? ==> r.value == Entry(content, old(Address(content)).value)
      ensures forall c: C :: Address(c) == old(Address(c))
    {
      SoftFinds(root, hash, content);
      var (node, found) := Reach(SoftAction, root, hash(content), (content, None));
      root := node;
      r := found.1;
    }
  }

  /** The objects that a run of internings hands out. */
  ghost function InternAll<C(!new), A>(root: Root<C, A>, hash: C -> Hash, objs: seq<Entry<C, A>>): seq<Entry<C, A>>
    requires RootOk(root, hash)
    decreases |objs|
  {
    if objs == [] then []
    else
      InternInterns(root, hash, objs[0]);
      var (node, r) := Reach(InternAction, root, hash(objs[0].key), objs[0]);
      [r] + InternAll(node, hash, objs[1..])
  }

  /** In any run, every object gets one of its own content, namely the one in the table from
      the start or else the first one offered. */
  lemma {:induction false} FirstStays<C(!new), A>(root: Root<C, A>, hash: C -> Hash, objs: seq<Entry<C, A>>, i: nat)
    requires RootOk(root, hash) && i < |objs|
    ensures |InternAll(root, hash, objs)| == |objs|
    ensures InternAll(root, hash, objs)[i]
            == Interned(ValueAt(root, hash, objs[i].key), objs[Position(objs, objs[i].key)])
    decreases |objs|
  {
    hide Reach, ValueAt, TrieOk;
    InternInterns(root, hash, objs[0]);
    var node := Reach(InternAction, root, hash(objs[0].key), objs[0]).0;
    if i > 0 {
      FirstStays(node, hash, objs[1..], i - 1);
    } else if |objs| > 1 {
      FirstStays(node, hash, objs[1..], 0);
    }
  }

  /** One object for each content: two requests get the same object exactly when they have
      the same content. */
  lemma OneObject<C(!new), A>(root: Root<C, A>, hash: C -> Hash, objs: seq<Entry<C, A>>, i: nat, j: nat)
    requires RootOk(root, hash) && i < |objs| && j < |objs|
    ensures |InternAll(root, hash, objs)| == |objs|
    ensures InternAll(root, hash, objs)[i].key == objs[i].key
    ensures InternAll(root, hash, objs)[i] == InternAll(root, hash, objs)[j] <==> objs[i].key == objs[j].key
  {
    FirstStays(root, hash, objs, i);
    FirstStays(root, hash, objs, j);
  }
}
