/** The re-entrant component walk: every strongly connected component of the
    seats that are not done is handed to a callback, which marks some of them
    done; the rest is decomposed and visited again. */
module Ordering {
  import opened Basics
  import opened Graphs

  /** The callback. It sees its own state, the done seats and the seats of one
      component, and answers with its new state and the seats it marks done. */
  type Visitor<!St> = (St, set<nat>, seq<nat>) -> (St, set<nat>)

  function Elems(s: seq<nat>): set<nat> {
    set x | x in s
  }

  /** The duty of a callback: mark at least one of the seats passed, and only those. */
  ghost predicate Dutiful<St(!new)>(f: Visitor<St>) {
    forall st, done, seats ::
      seats != [] && Distinct(seats) && Elems(seats) !! done ==>
        f(st, done, seats).1 != {} && f(st, done, seats).1 <= Elems(seats)
  }

  /** One call of the callback. */
  datatype Event<St> = Event(before: St, done: set<nat>, seats: seq<nat>)

  /** What the walk promises about the seats of one call: a strongly connected
      component of the seats not done, all of whose other successors are done. */
  ghost predicate IsComponent(g: Graph, done: set<nat>, seats: seq<nat>) {
    && Distinct(seats) && Elems(seats) !! done && Elems(seats) <= Everything(g)
    && IsScc(g, Everything(g) - done, Elems(seats))
    && ClosedBut(g, Elems(seats), done)
  }

  /** `log` is the sequence of calls of a walk that has now reached `st`, `done`. */
  ghost predicate Run<St>(g: Graph, f: Visitor<St>, init: St, log: seq<Event<St>>, st: St, done: set<nat>)
    decreases |log|
  {
    if log == [] then
      st == init && done == {}
    else
      var e := log[|log| - 1];
      && Run(g, f, init, log[..|log| - 1], e.before, e.done)
      && IsComponent(g, e.done, e.seats)
      && st == f(e.before, e.done, e.seats).0
      && done == e.done + f(e.before, e.done, e.seats).1
  }

  lemma RunStep<St>(g: Graph, f: Visitor<St>, init: St, log: seq<Event<St>>, st: St, done: set<nat>, seats: seq<nat>)
    requires Run(g, f, init, log, st, done) && IsComponent(g, done, seats)
    ensures Run(g, f, init, log + [Event(st, done, seats)], f(st, done, seats).0, done + f(st, done, seats).1)
  {
    var log' := log + [Event(st, done, seats)];
    assert log'[..|log'| - 1] == log;
  }

  /** The triangular numbers bound the stack. */
  function Triangle(k: nat): (r: nat) {
    if k == 0 then 0 else k + Triangle(k - 1)
  }

  lemma {:induction false} TriangleClosedForm(k: nat)
    ensures Triangle(k) == k * (k + 1) / 2
  {
    if k > 0 {
      TriangleClosedForm(k - 1);
      assert k * (k + 1) == (k - 1) * k + 2 * k;
    }
  }

  lemma {:induction false} TriangleDrop(k: nat, m: nat)
    requires m <= k
    ensures m + Triangle(k - m) <= Triangle(k)
  {
    if m > 0 {
      TriangleDrop(k - 1, m - 1);
    }
  }

  lemma TriangleMono(a: nat, b: nat)
    requires a <= b
    ensures Triangle(a) <= Triangle(b)
  {
    TriangleDrop(b, b - a);
  }

  lemma SubsetCard(a: set<nat>, b: set<nat>)
    requires a <= b
    ensures |a| <= |b|
  {
    assert b == a + (b - a);
  }

  lemma ElemsCard(s: seq<nat>)
    requires Distinct(s)
    ensures |Elems(s)| == |s|
  {
    if s != [] {
      var t := s[..|s| - 1];
      ElemsCard(t);
      assert Elems(s) == Elems(t) + {s[|s| - 1]};
    }
  }

  /* Views of the tag array. */

  ghost function DoneOf(tags: seq<int>): set<nat> {
    set s: nat {:trigger tags[s]} | s < |tags| && tags[s] == -1
  }

  ghost function WhiteOf(tags: seq<int>): set<nat> {
    set s: nat {:trigger tags[s]} | s < |tags| && tags[s] == 0
  }

  /** The seats whose tag is above `t`: those opened since the counter was `t`. */
  ghost function Since(tags: seq<int>, t: int): set<nat> {
    set s: nat {:trigger tags[s]} | s < |tags| && tags[s] > t
  }

  /** How the tags may change while the counter grows from `t`: done stays done,
      an open seat keeps its tag, and a new tag is above `t`. */
  ghost predicate Kept(tags: seq<int>, t: int, tags': seq<int>) {
    && |tags'| == |tags|
    && forall s :: 0 <= s < |tags| ==>
      && (tags[s] == -1 ==> tags'[s] == -1)
      && (tags[s] > 0 ==> tags'[s] == tags[s])
      && (tags'[s] > 0 ==> tags'[s] == tags[s] || (tags[s] == 0 && tags'[s] > t))
      && (tags'[s] == 0 ==> tags[s] == 0)
  }

  /** Seat `w` is done, or open with a tag of at least `low`. */
  predicate Bounded(tags: seq<int>, w: nat, low: int) {
    w < |tags| && (tags[w] == -1 || (tags[w] > 0 && tags[w] >= low))
  }

  lemma BoundedWeaken(tags: seq<int>, low: int, low': int)
    requires low' <= low
    ensures forall w :: Bounded(tags, w, low) ==> Bounded(tags, w, low')
  {
  }

  lemma BoundedKept(tags: seq<int>, low: int, c: int, tags': seq<int>, low': int)
    requires Kept(tags, c, tags') && low' <= low
    ensures forall w :: Bounded(tags, w, low) ==> Bounded(tags', w, low')
  {
  }

  /** `v` leads to a seat that was open when the counter was `t`. */
  ghost predicate Escapes(g: Graph, tags: seq<int>, t: int, group: set<nat>, v: nat) {
    exists y: nat :: y < |tags| && 0 < tags[y] <= t && Reach(g, group, v, y)
  }

  ghost predicate HasLow(g: Graph, tags: seq<int>, group: set<nat>, s: nat, low: int) {
    exists x: nat :: x < |tags| && tags[x] == low && Reach(g, group, s, x)
  }

  /** The seats opened by the visit of `s`, after `k` of its edges were followed. */
  ghost predicate Growing(g: Graph, tags: seq<int>, t: int, s: nat, group: seq<nat>, low: int, k: nat) {
    var gs := Elems(group);
    && ValidGraph(g) && |tags| == |g| && s < |g| && k <= |g[s]|
    && Distinct(group) && gs == Since(tags, t) && s in gs && 0 < low <= t + 1
    && (low <= t ==> HasLow(g, tags, gs, s, low))
    && (forall v :: v in gs ==> Reach(g, gs, s, v))
    && (forall v :: v in gs ==> Reach(g, gs, v, s) || Escapes(g, tags, t, gs, v))
    && (forall v, w :: v in gs && v != s && w in g[v] ==> Bounded(tags, w, low))
    && (forall j :: 0 <= j < k ==> Bounded(tags, g[s][j], low))
  }

  /** The visit of `s` leaves a group open because it leads to an older open seat. */
  ghost predicate Opened(g: Graph, tags: seq<int>, t: int, s: nat, group: seq<nat>, low: int) {
    var gs := Elems(group);
    && ValidGraph(g) && |tags| == |g|
    && Distinct(group) && gs == Since(tags, t) && s in gs && 0 < low <= t
    && HasLow(g, tags, gs, s, low)
    && (forall v :: v in gs ==> Reach(g, gs, s, v))
    && (forall v :: v in gs ==> Escapes(g, tags, t, gs, v))
    && (forall v, w :: v in gs && w in g[v] ==> Bounded(tags, w, low))
  }

  lemma GrowStart(g: Graph, tags: seq<int>, t: int, s: nat)
    requires ValidGraph(g) && |tags| == |g| && s < |g| && t >= 0
    requires forall x :: 0 <= x < |tags| ==> x == s || tags[x] <= t
    requires tags[s] == t + 1
    ensures Growing(g, tags, t, s, [s], t + 1, 0)
  {
    assert Elems([s]) == Since(tags, t);
    ReachRefl(g, Elems([s]), s);
  }

  /** An edge to a seat that is open or done. */
  lemma GrowEdge(g: Graph, tags: seq<int>, t: int, s: nat, group: seq<nat>, low: int, k: nat)
    requires Growing(g, tags, t, s, group, low, k) && k < |g[s]|
    requires tags[g[s][k]] == -1 || tags[g[s][k]] > 0
    ensures var w := g[s][k];
      Growing(g, tags, t, s, group, if 0 < tags[w] < low then tags[w] else low, k + 1)
  {
    var w := g[s][k];
    var low' := if 0 < tags[w] < low then tags[w] else low;
    if low' < low {
      ReachEdge(g, Elems(group), s, w);
      assert HasLow(g, tags, Elems(group), s, low');
    }
    BoundedWeaken(tags, low, low');
    assert Bounded(tags, w, low');
  }

  lemma KeptEscapes(g: Graph, tags: seq<int>, t: int, group: set<nat>, tags': seq<int>, c: int, wider: set<nat>, v: nat)
    requires Escapes(g, tags, t, group, v) && Kept(tags, c, tags') && group <= wider
    ensures Escapes(g, tags', t, wider, v)
  {
    var y: nat :| y < |tags| && 0 < tags[y] <= t && Reach(g, group, v, y);
    ReachMono(g, group, wider, v, y);
  }

  lemma KeptLow(g: Graph, tags: seq<int>, group: set<nat>, tags': seq<int>, c: int, wider: set<nat>, s: nat, low: int)
    requires HasLow(g, tags, group, s, low) && low > 0 && Kept(tags, c, tags') && group <= wider
    ensures HasLow(g, tags', wider, s, low)
  {
    var x: nat :| x < |tags| && tags[x] == low && Reach(g, group, s, x);
    ReachMono(g, group, wider, s, x);
  }

  /** An edge to a seat whose own visit finished everything it opened. */
  lemma GrowClosed(g: Graph, tags: seq<int>, t: int, s: nat, group: seq<nat>, low: int, k: nat, c: int, tags': seq<int>)
    requires Growing(g, tags, t, s, group, low, k) && k < |g[s]|
    requires t < c && Kept(tags, c, tags') && Since(tags', c) == {}
    requires tags'[g[s][k]] == -1
    ensures Growing(g, tags', t, s, group, low, k + 1)
  {
    var gs := Elems(group);
    BoundedKept(tags, low, c, tags', low);
    forall x ensures x in Since(tags', t) <==> x in gs {
      if x in Since(tags', t) {
        assert x !in Since(tags', c);
      }
    }
    if low <= t {
      KeptLow(g, tags, gs, tags', c, gs, s, low);
    }
    forall v | v in gs ensures Reach(g, gs, v, s) || Escapes(g, tags', t, gs, v) {
      if !Reach(g, gs, v, s) {
        KeptEscapes(g, tags, t, gs, tags', c, gs, v);
      }
    }
  }

  /** An edge to a seat whose visit left a group open: the groups merge. */
  lemma GrowOpened(g: Graph, tags: seq<int>, t: int, s: nat, group: seq<nat>, low: int, k: nat, c: int,
                   tags': seq<int>, sub: seq<nat>, low': int)
    requires Growing(g, tags, t, s, group, low, k) && k < |g[s]|
    requires t < c && Kept(tags, c, tags') && (forall x :: 0 <= x < |tags| ==> tags[x] <= c)
    requires Opened(g, tags', c, g[s][k], sub, low')
    ensures Growing(g, tags', t, s, group + sub, if low' < low then low' else low, k + 1)
  {
    var w := g[s][k];
    var gs, ss, all := Elems(group), Elems(sub), Elems(group + sub);
    var least := if low' < low then low' else low;
    assert all == gs + ss;
    assert all == Since(tags', t);
    MergeDistinct(group, sub);
    BoundedKept(tags, low, c, tags', least);
    BoundedWeaken(tags', low', least);
    ReachEdge(g, all, s, w);
    if low' < low {
      var x: nat :| x < |tags'| && tags'[x] == low' && Reach(g, ss, w, x);
      ReachMono(g, ss, all, w, x);
      ReachTrans(g, all, s, w, x);
      assert HasLow(g, tags', all, s, least);
    } else if low <= t {
      KeptLow(g, tags, gs, tags', c, all, s, low);
    }
    forall v | v in all ensures Reach(g, all, s, v) {
      if v in gs {
        ReachMono(g, gs, all, s, v);
      } else {
        ReachMono(g, ss, all, w, v);
        ReachTrans(g, all, s, w, v);
      }
    }
    forall v | v in all ensures Reach(g, all, v, s) || Escapes(g, tags', t, all, v) {
      if v in gs {
        MergeOld(g, tags, t, s, gs, c, tags', all, v);
      } else {
        var y: nat :| y < |tags'| && 0 < tags'[y] <= c && Reach(g, ss, v, y);
        ReachMono(g, ss, all, v, y);
        if tags'[y] > t {
          assert y in gs;
          MergeOld(g, tags, t, s, gs, c, tags', all, y);
          MergeVia(g, tags', t, s, all, v, y);
        }
      }
    }
  }

  lemma MergeDistinct(group: seq<nat>, sub: seq<nat>)
    requires Distinct(group) && Distinct(sub) && Elems(group) !! Elems(sub)
    ensures Distinct(group + sub)
  {
    forall i, j | 0 <= i < j < |group + sub| ensures (group + sub)[i] != (group + sub)[j] {
      if i < |group| <= j {
        assert group[i] in Elems(group) && sub[j - |group|] in Elems(sub);
      }
    }
  }

  lemma MergeOld(g: Graph, tags: seq<int>, t: int, s: nat, gs: set<nat>, c: int, tags': seq<int>, all: set<nat>, v: nat)
    requires Reach(g, gs, v, s) || Escapes(g, tags, t, gs, v)
    requires Kept(tags, c, tags') && gs <= all
    ensures Reach(g, all, v, s) || Escapes(g, tags', t, all, v)
  {
    if Reach(g, gs, v, s) {
      ReachMono(g, gs, all, v, s);
    } else {
      KeptEscapes(g, tags, t, gs, tags', c, all, v);
    }
  }

  lemma MergeVia(g: Graph, tags: seq<int>, t: int, s: nat, all: set<nat>, v: nat, y: nat)
    requires Reach(g, all, v, y)
    requires Reach(g, all, y, s) || Escapes(g, tags, t, all, y)
    ensures Reach(g, all, v, s) || Escapes(g, tags, t, all, v)
  {
    if Reach(g, all, y, s) {
      ReachTrans(g, all, v, y, s);
    } else {
      var z: nat :| z < |tags| && 0 < tags[z] <= t && Reach(g, all, y, z);
      ReachTrans(g, all, v, y, z);
    }
  }

  /** All edges followed and a low tag below: the group stays open. */
  lemma GrowOpen(g: Graph, tags: seq<int>, t: int, s: nat, group: seq<nat>, low: int)
    requires s < |g| && Growing(g, tags, t, s, group, low, |g[s]|) && low <= t
    ensures Opened(g, tags, t, s, group, low)
  {
    var gs := Elems(group);
    var x: nat :| x < |tags| && tags[x] == low && Reach(g, gs, s, x);
    assert Escapes(g, tags, t, gs, s);
    forall v | v in gs ensures Escapes(g, tags, t, gs, v) {
      if Reach(g, gs, v, s) {
        ReachTrans(g, gs, v, s, x);
      }
    }
  }

  /** All edges followed and no low tag below: the group is a component. */
  lemma GrowComponent(g: Graph, tags: seq<int>, t: int, s: nat, group: seq<nat>)
    requires s < |g| && Growing(g, tags, t, s, group, t + 1, |g[s]|) && t >= 0
    ensures IsComponent(g, DoneOf(tags), group)
  {
    var gs, done := Elems(group), DoneOf(tags);
    forall v, w | v in gs && v < |g| && w in g[v] ensures w in gs || w in done {
      assert Bounded(tags, w, t + 1);
    }
    forall v | v in gs ensures Reach(g, gs, v, s) {
      if !Reach(g, gs, v, s) {
        var y: nat :| y < |tags| && 0 < tags[y] <= t && Reach(g, gs, v, y);
        ReachStays(g, gs, gs + done, v, y);
        assert false;
      }
    }
    forall a, b | a in gs && b in gs ensures Reach(g, gs, a, b) {
      ReachTrans(g, gs, a, s, b);
    }
    LocalScc(g, done, gs, Everything(g) - done);
  }

  /** A second visit inside a component cannot leave anything open. */
  lemma RevisitCloses(g: Graph, done: set<nat>, comp: set<nat>, tags: seq<int>, t: int, tags': seq<int>, s: nat,
                      group: seq<nat>, low: int)
    requires ValidGraph(g) && |tags| == |g| && ClosedBut(g, comp, done) && s in comp
    requires done <= DoneOf(tags) && (forall x :: x in comp && x < |tags| ==> tags[x] <= 0)
    requires (forall x :: 0 <= x < |tags| ==> tags[x] <= t)
    requires Kept(tags, t, tags')
    ensures !Opened(g, tags', t, s, group, low)
  {
    if Opened(g, tags', t, s, group, low) {
      var gs := Elems(group);
      var x: nat :| x < |tags'| && tags'[x] == low && Reach(g, gs, s, x);
      assert gs !! done by {
        forall v | v in gs ensures v !in DoneOf(tags) {
          assert v in Since(tags', t);
        }
      }
      ReachStays(g, gs, comp + done, s, x);
      assert false;
    }
  }

  lemma KeptTrans(tags0: seq<int>, t: int, tags: seq<int>, c: int, tags': seq<int>)
    requires Kept(tags0, t, tags) && Kept(tags, c, tags') && t <= c
    ensures Kept(tags0, t, tags')
  {
  }

  /** The tags once everything opened since `t` is done. */
  ghost predicate Settled(tags: seq<int>, t: int, tags': seq<int>) {
    && |tags'| == |tags|
    && forall x :: 0 <= x < |tags| ==>
      && (tags[x] > t ==> tags'[x] == -1)
      && (tags[x] <= t && tags[x] != 0 ==> tags'[x] == tags[x])
      && (tags[x] == 0 ==> tags'[x] == 0 || tags'[x] == -1)
  }

  lemma SettledKept(tags0: seq<int>, t: int, tags: seq<int>, tags': seq<int>)
    requires Kept(tags0, t, tags) && Settled(tags, t, tags') && t >= 0
    requires forall x :: 0 <= x < |tags0| ==> -1 <= tags0[x] <= t
    ensures Kept(tags0, t, tags') && Since(tags', t) == {}
  {
  }

  lemma GroupInside(tags0: seq<int>, t: int, tags: seq<int>, group: seq<nat>, universe: set<nat>)
    requires t >= 0 && Elems(group) == Since(tags, t)
    requires forall s: nat :: s < |tags| && tags[s] != 0 ==> s in universe
    ensures Elems(group) <= universe
  {
  }

  /** The two ways in which the visit of a white seat can end. */
  ghost predicate Outcome(g: Graph, tags: seq<int>, t: int, s: nat, below: seq<nat>, stack: seq<nat>, minTag: int) {
    || (stack == below && |tags| > s && Since(tags, t) == {} && tags[s] == -1 && minTag > t)
    || (below <= stack && Opened(g, tags, t, s, stack[|below|..], minTag))
  }

  /** One turn of the edge loop. */
  lemma FollowEdge(g: Graph, tags: seq<int>, t: int, s: nat, stack: seq<nat>, pos: nat, low: int, k: nat,
                   c: int, tags': seq<int>, stack': seq<nat>, m: int)
    requires pos <= |stack| && Growing(g, tags, t, s, stack[pos..], low, k) && k < |g[s]|
    requires t < c && Kept(tags, c, tags') && (forall x :: 0 <= x < |tags| ==> -1 <= tags[x] <= c)
    requires tags[g[s][k]] != 0 ==> m == tags[g[s][k]] && stack' == stack && tags' == tags
    requires tags[g[s][k]] == 0 ==> Outcome(g, tags', c, g[s][k], stack, stack', m)
    ensures stack <= stack'
    ensures Growing(g, tags', t, s, stack'[pos..], if 0 < m < low then m else low, k + 1)
  {
    var w, group := g[s][k], stack[pos..];
    if tags[w] != 0 {
      GrowEdge(g, tags, t, s, group, low, k);
    } else if Opened(g, tags', c, w, stack'[|stack|..], m) && stack <= stack' {
      GrowOpened(g, tags, t, s, group, low, k, c, tags', stack'[|stack|..], m);
      assert stack'[pos..] == group + stack'[|stack|..];
    } else {
      GrowClosed(g, tags, t, s, group, low, k, c, tags');
    }
  }

  /** Every seat of the calls logged from position `k` on is done. */
  ghost predicate AllDone<St>(log: seq<Event<St>>, k: nat, done: set<nat>) {
    forall i :: k <= i < |log| ==> Elems(log[i].seats) <= done
  }

  ghost function Max(a: nat, b: nat): nat {
    if a < b then b else a
  }

  /** The white seats lost to a group or turned done leave room for the stack. */
  lemma WhiteBudget(tags: seq<int>, t: int, tags': seq<int>, group: seq<nat>, universe: set<nat>)
    requires Kept(tags, t, tags') && t >= 0 && (forall x :: 0 <= x < |tags| ==> tags[x] <= t)
    requires Distinct(group) && Elems(group) == Since(tags', t) && Elems(group) <= universe
    ensures |WhiteOf(tags') * universe| + |group| <= |WhiteOf(tags) * universe|
  {
    var after, before := WhiteOf(tags') * universe, WhiteOf(tags) * universe;
    ElemsCard(group);
    assert after !! Elems(group);
    forall x | x in Elems(group) ensures x in before {
      assert tags'[x] > t && tags[x] <= t;
    }
    SubsetCard(after + Elems(group), before);
  }

  /** The tags after a component was reset and some of its seats were marked done. */
  ghost predicate Marked(tags: seq<int>, comp: set<nat>, marked: set<nat>, tags': seq<int>) {
    && |tags'| == |tags|
    && forall x: nat :: x < |tags| ==>
      tags'[x] == if x in marked then -1 else if x in comp then 0 else tags[x]
  }

  /** Finished calls stay finished. */
  lemma KeptDoneFrom<St>(k: nat, log: seq<Event<St>>, tags: seq<int>, c: int, log': seq<Event<St>>, tags': seq<int>)
    requires k <= |log| && log <= log' && Kept(tags, c, tags')
    requires AllDone(log, k, DoneOf(tags)) && AllDone(log', |log|, DoneOf(tags'))
    ensures AllDone(log', k, DoneOf(tags'))
  {
    assert DoneOf(tags) <= DoneOf(tags');
    forall i | k <= i < |log'| ensures Elems(log'[i].seats) <= DoneOf(tags') {
      if i < |log| {
        assert log'[i] == log[i];
      }
    }
  }

  /** The state in which the edge loop starts. */
  lemma ExploreStart<St>(tags0: seq<int>, t: int, s: nat, log: seq<Event<St>>, done: set<nat>)
    requires t >= 0 && (forall x :: 0 <= x < |tags0| ==> -1 <= tags0[x] <= t)
    requires s < |tags0| && tags0[s] == 0
    ensures Kept(tags0, t, tags0[s := t + 1])
    ensures Kept(tags0[s := t + 1], t + 1, tags0[s := t + 1])
    ensures AllDone(log, |log|, done)
  {
  }

  /** While a seat is explored, the stack it used and the white seats that are
      left together fit the white seats there were. */
  lemma GroupBudget(g: Graph, tags0: seq<int>, t: int, tags: seq<int>, s: nat, group: seq<nat>, low: int, k: nat,
                    universe: set<nat>)
    requires Growing(g, tags, t, s, group, low, k) && Kept(tags0, t, tags) && t >= 0
    requires forall x :: 0 <= x < |tags0| ==> tags0[x] <= t
    requires forall x: nat :: x < |tags| && tags[x] != 0 ==> x in universe
    ensures Elems(group) <= universe
    ensures |group| <= |WhiteOf(tags0) * universe|
    ensures |WhiteOf(tags) * universe| + |group| <= |WhiteOf(tags0) * universe|
    ensures |group| + Triangle(|WhiteOf(tags) * universe|) <= Triangle(|WhiteOf(tags0) * universe|)
  {
    GroupInside(tags0, t, tags, group, universe);
    WhiteBudget(tags0, t, tags, group, universe);
    var bound, left := |WhiteOf(tags0) * universe|, |WhiteOf(tags) * universe|;
    TriangleDrop(bound, |group|);
    TriangleMono(left, bound - |group|);
  }

  lemma VisitNothing<St>(tags: seq<int>, t: int, log: seq<Event<St>>, done: set<nat>)
    requires forall x :: 0 <= x < |tags| ==> -1 <= tags[x] <= t
    ensures Kept(tags, t, tags) && AllDone(log, |log|, done)
  {
  }

  lemma LowRange(g: Graph, tags: seq<int>, t: int, s: nat, group: seq<nat>, low: int, k: nat)
    requires Growing(g, tags, t, s, group, low, k)
    ensures 0 < low <= t + 1 && Elems(group) == Since(tags, t) && s in Elems(group)
  {
  }

  /** The visit ends with a group that stays open. */
  lemma VisitOpen(g: Graph, tags: seq<int>, t: int, s: nat, below: seq<nat>, stack: seq<nat>, low: int)
    requires s < |g| && below <= stack && low <= t
    requires Growing(g, tags, t, s, stack[|below|..], low, |g[s]|)
    ensures Outcome(g, tags, t, s, below, stack, low)
  {
    GrowOpen(g, tags, t, s, stack[|below|..], low);
  }

  /** The visit ends with a delivered component. */
  lemma VisitComponent<St>(g: Graph, tags0: seq<int>, t: int, tags: seq<int>, c: int, tags': seq<int>, s: nat,
                           stack: seq<nat>,
                           log0: seq<Event<St>>, log: seq<Event<St>>, log': seq<Event<St>>)
    requires Kept(tags0, t, tags) && Settled(tags, t, tags') && 0 <= t && s in Since(tags, t)
    requires forall x :: 0 <= x < |tags0| ==> -1 <= tags0[x] <= t
    requires log0 <= log <= log'
    requires AllDone(log, |log0|, DoneOf(tags)) && AllDone(log', |log|, DoneOf(tags'))
    ensures Kept(tags0, t, tags') && Outcome(g, tags', t, s, stack, stack, t + 1)
    ensures AllDone(log', |log0|, DoneOf(tags'))
  {
    SettledKept(tags0, t, tags, tags');
    assert DoneOf(tags) <= DoneOf(tags');
    forall i | |log0| <= i < |log'| ensures Elems(log'[i].seats) <= DoneOf(tags') {
      if i < |log| {
        assert log'[i] == log[i];
      }
    }
  }

  /** What is needed of the tags for the recursion to terminate. */
  lemma KeptMeasures(tags: seq<int>, c: int, tags': seq<int>, universe: set<nat>)
    requires Kept(tags, c, tags')
    ensures universe - DoneOf(tags') <= universe - DoneOf(tags)
    ensures WhiteOf(tags') * universe <= WhiteOf(tags) * universe
  {
  }

  lemma ResetDone(tags: seq<int>, comp: set<nat>, tags': seq<int>, isDone: set<nat>)
    requires |tags'| == |tags| && comp !! DoneOf(tags)
    requires forall x: nat :: x < |tags| ==> tags'[x] == if x in comp then 0 else tags[x]
    requires isDone == set s: nat {:trigger tags'[s]} | 0 <= s < |tags'| && tags'[s] == -1
    ensures isDone == DoneOf(tags)
  {
  }

  lemma DutifulCall<St(!new)>(f: Visitor<St>, st: St, done: set<nat>, seats: seq<nat>)
    requires Dutiful(f) && seats != [] && Distinct(seats) && Elems(seats) !! done
    ensures f(st, done, seats).1 != {} && f(st, done, seats).1 <= Elems(seats)
  {
  }

  lemma MarkedDone(tags: seq<int>, comp: set<nat>, marked: set<nat>, tags': seq<int>)
    requires Marked(tags, comp, marked, tags') && marked <= comp && comp !! DoneOf(tags)
    requires forall x :: x in comp ==> x < |tags|
    ensures DoneOf(tags') == DoneOf(tags) + marked
  {
  }

  /** While a delivered component is visited again, its seats are white or done
      and all others are as they were, or turned done. */
  ghost predicate Settling(g: Graph, tags: seq<int>, t: int, done: set<nat>, comp: set<nat>, marked: set<nat>,
                           tags': seq<int>) {
    && ValidGraph(g) && |tags| == |g| && |tags'| == |g| && t >= 0
    && done == DoneOf(tags) && comp == Since(tags, t) && ClosedBut(g, comp, done)
    && marked != {} && marked <= comp && (forall x :: 0 <= x < |tags| ==> -1 <= tags[x])
    && (forall x: nat :: x < |g| ==>
      && (x in marked ==> tags'[x] == -1)
      && (tags[x] > t ==> tags'[x] == 0 || tags'[x] == -1)
      && (tags[x] <= t && tags[x] != 0 ==> tags'[x] == tags[x])
      && (tags[x] == 0 ==> tags'[x] == 0 || tags'[x] == -1))
  }

  lemma CompInside(g: Graph, tags: seq<int>, t: int, comp: seq<nat>, universe: set<nat>)
    requires IsComponent(g, DoneOf(tags), comp)
    requires t >= 0 && Elems(comp) == Since(tags, t)
    requires forall x: nat :: x < |tags| && tags[x] != 0 ==> x in universe
    ensures Elems(comp) <= universe && Distinct(comp)
  {
  }

  lemma SettlingStart(g: Graph, tags: seq<int>, t: int, done: set<nat>, comp: seq<nat>, marked: set<nat>,
                      tags': seq<int>, universe: set<nat>)
    requires ValidGraph(g) && |tags| == |g| && t >= 0 && IsComponent(g, DoneOf(tags), comp)
    requires done == DoneOf(tags) && Elems(comp) == Since(tags, t)
    requires marked != {} && marked <= Elems(comp) && Marked(tags, Elems(comp), marked, tags')
    requires forall x :: 0 <= x < |tags| ==> -1 <= tags[x]
    ensures Settling(g, tags, t, done, Elems(comp), marked, tags')
  {
  }

  lemma InStack(stack: seq<nat>, pos: nat, i: nat, comp: set<nat>, tags: seq<int>, t: int, universe: set<nat>)
    requires pos <= i < |stack| && comp == Elems(stack[pos..]) && comp <= universe
    ensures stack[i] in comp && stack[i] in universe
  {
    assert stack[pos..][i - pos] == stack[i];
  }

  lemma TriangleStep(bound: nat, size: nat, left: nat)
    requires left < bound && size <= bound
    ensures size + Triangle(left) <= Triangle(bound)
  {
    TriangleMono(left, bound - 1);
  }

  /** A seat was marked, so less than before is pending and white. */
  lemma SettlingMeasures(g: Graph, tags: seq<int>, t: int, done: set<nat>, comp: set<nat>, marked: set<nat>,
                         tags': seq<int>,
                         universe: set<nat>, group: seq<nat>)
    requires Settling(g, tags, t, done, comp, marked, tags') && comp <= universe
    requires Distinct(group) && Elems(group) == comp
    ensures forall x :: x in comp ==> x < |g| && (tags'[x] == 0 || tags'[x] == -1)
    ensures universe - DoneOf(tags') < universe - DoneOf(tags)
    ensures |WhiteOf(tags') * universe| < |WhiteOf(tags) * universe| + |group|
  {
    var x :| x in marked;
    assert x in comp && tags[x] > t && tags'[x] == -1;
    assert x in DoneOf(tags') && x !in DoneOf(tags);
    var after, before := WhiteOf(tags') * universe, WhiteOf(tags) * universe;
    ElemsCard(group);
    assert before !! comp;
    assert x in before + comp && x !in after;
    SubsetCard(after, before + comp - {x});
  }

  lemma SettlingStep(g: Graph, tags: seq<int>, t: int, done: set<nat>, comp: set<nat>, marked: set<nat>,
                     tagsK: seq<int>, c: int,
                     tags': seq<int>, s: nat, stack: seq<nat>, stack': seq<nat>, m: int)
    requires Settling(g, tags, t, done, comp, marked, tagsK) && s in comp && s < |g| && tagsK[s] == 0
    requires c >= t && (forall x :: 0 <= x < |tagsK| ==> tagsK[x] <= c)
    requires forall x :: 0 <= x < |tags'| ==> -1 <= tags'[x]
    requires Kept(tagsK, c, tags') && Outcome(g, tags', c, s, stack, stack', m)
    ensures Settling(g, tags, t, done, comp, marked, tags') && tags'[s] == -1 && stack' == stack
    ensures forall x :: 0 <= x < |tagsK| && tagsK[x] == -1 ==> tags'[x] == -1
  {
    if stack <= stack' {
      RevisitCloses(g, done, comp, tagsK, c, tags', s, stack'[|stack|..], m);
    }
    assert Since(tags', c) == {} && tags'[s] == -1;
    forall x: nat | x < |g| ensures tags'[x] <= 0 || tags'[x] == tagsK[x] {
      assert x !in Since(tags', c);
    }
    forall x: nat | x < |g|
      ensures x in marked ==> tags'[x] == -1
      ensures tags[x] > t ==> tags'[x] == 0 || tags'[x] == -1
      ensures tags[x] <= t && tags[x] != 0 ==> tags'[x] == tags[x]
      ensures tags[x] == 0 ==> tags'[x] == 0 || tags'[x] == -1
    {
    }
  }

  lemma SettlingEnd<St>(g: Graph, tags: seq<int>, t: int, done: set<nat>, comp: seq<nat>, marked: set<nat>,
                        tags': seq<int>,
                        log: seq<Event<St>>, k: nat)
    requires Settling(g, tags, t, done, Elems(comp), marked, tags')
    requires forall j :: 0 <= j < |comp| ==> comp[j] < |g| && tags'[comp[j]] == -1
    requires k < |log| && Elems(log[k].seats) == Elems(comp) && AllDone(log, k + 1, DoneOf(tags'))
    ensures Settled(tags, t, tags') && AllDone(log, k, DoneOf(tags'))
  {
    forall x | x in Elems(comp) ensures x in DoneOf(tags') {
    }
    forall x: nat | x < |g| && tags[x] > t ensures tags'[x] == -1 {
      assert x in Elems(comp);
    }
  }

  /** With nothing open before, a visit leaves nothing open. */
  lemma TopCloses(g: Graph, tags: seq<int>, t: int, tags': seq<int>, s: nat, stack: seq<nat>, low: int)
    requires |tags| == |g| && s < |g| && (forall x :: 0 <= x < |tags| ==> -1 <= tags[x] <= 0) && t >= 0
    requires Kept(tags, t, tags')
    requires tags[s] == 0 ==> Outcome(g, tags', t, s, [], stack, low)
    requires tags[s] != 0 ==> tags' == tags && stack == []
    ensures tags'[s] == -1 && stack == [] && forall x :: 0 <= x < |tags'| ==> tags'[x] <= 0
  {
    if tags[s] == 0 {
      assert !Opened(g, tags', t, s, stack, low);
      forall x: nat | x < |tags'| ensures tags'[x] <= 0 {
        assert x !in Since(tags', t);
      }
    }
  }

  lemma ElemsNext(s: seq<nat>, i: nat, j: nat)
    requires i <= j < |s|
    ensures Elems(s[i..j + 1]) == Elems(s[i..j]) + {s[j]}
  {
    assert s[i..j + 1] == s[i..j] + [s[j]];
  }

  class Walk<St(!new)> {
    const g: Graph
    const visitComp: Visitor<St>
    const seatTag: array<int>
    ghost const init: St
    ghost const universe: set<nat>

    var tag: int
    var stack: seq<nat>
    var st: St
    ghost var log: seq<Event<St>>
    ghost var peak: nat

    ghost predicate Valid()
      reads this, seatTag
    {
      && ValidGraph(g) && seatTag.Length == |g| && tag >= 0 && Dutiful(visitComp) && |stack| <= peak
      && universe <= Everything(g) && ClosedBut(g, universe, {})
      && (forall s: nat :: s < |g| ==> -1 <= seatTag[s] <= tag)
      && (forall s: nat :: s < |g| && seatTag[s] != 0 ==> s in universe)
      && Run(g, visitComp, init, log, st, DoneOf(seatTag[..]))
    }

    /** Measures of the walk: the seats not done, and those not yet opened. */
    ghost function Pending(): set<nat>
      reads this, seatTag
    {
      universe - DoneOf(seatTag[..])
    }

    ghost function Fresh(): set<nat>
      reads this, seatTag
    {
      WhiteOf(seatTag[..]) * universe
    }

    constructor (g: Graph, visitComp: Visitor<St>, st: St, ghost universe: set<nat>)
      requires ValidGraph(g) && Dutiful(visitComp)
      requires universe <= Everything(g) && ClosedBut(g, universe, {})
      ensures Valid() && fresh(this) && fresh(seatTag)
      ensures this.g == g && this.visitComp == visitComp && init == st && this.universe == universe
      ensures this.st == st && stack == [] && log == [] && peak == 0
      ensures forall s: nat :: s < |g| ==> seatTag[s] == 0
    {
      this.g, this.visitComp, this.st, this.universe := g, visitComp, st, universe;
      init := st;
      tag, stack, log, peak := 0, [], [], 0;
      seatTag := new int[|g|](_ => 0);
      new;
      assert DoneOf(seatTag[..]) == {};
    }

    /** Give `s` the next tag and push it. */
    method Open(s: nat)
      requires Valid() && s in universe && seatTag[s] == 0
      modifies this`tag, this`stack, this`peak, seatTag
      ensures Valid() && tag == old(tag) + 1 && stack == old(stack) + [s]
      ensures seatTag[..] == old(seatTag[..])[s := tag]
      ensures Pending() == old(Pending()) && Fresh() == old(Fresh()) - {s} && s in old(Fresh())
      ensures peak == Max(old(peak), |old(stack)| + 1)
    {
      tag := tag + 1;
      seatTag[s] := tag;
      stack := stack + [s];
      peak := Max(peak, |stack|);
      assert DoneOf(seatTag[..]) == old(DoneOf(seatTag[..]));
    }

    /** Reset the component on top of the stack and hand it to the callback. */
    method Deliver(pos: nat) returns (ghost marked: set<nat>)
      requires Valid() && pos < |stack|
      requires IsComponent(g, DoneOf(seatTag[..]), stack[pos..]) && Elems(stack[pos..]) <= universe
      modifies this`st, this`log, seatTag
      ensures Valid()
      ensures log == old(log) + [Event(old(st), old(DoneOf(seatTag[..])), stack[pos..])]
      ensures marked != {} && marked <= Elems(stack[pos..])
      ensures Marked(old(seatTag[..]), Elems(stack[pos..]), marked, seatTag[..])
    {
      hide Run, Dutiful, IsScc, ClosedBut, ValidGraph, DoneOf;
      var comp := stack[pos..];
      ghost var tags, done := seatTag[..], DoneOf(seatTag[..]);
      RunStep(g, visitComp, init, log, st, done, comp);
      for i := pos to |stack|
        modifies seatTag
        invariant forall x: nat :: x < |g| ==>
          seatTag[x] == if x in Elems(stack[pos..i]) then 0 else tags[x]
      {
        assert stack[i] in Elems(comp);
        seatTag[stack[i]] := 0;
        ElemsNext(stack, pos, i);
      }
      assert stack[pos..|stack|] == comp;
      var isDone := set s | 0 <= s < |g| && seatTag[s] == -1;
      ResetDone(tags, Elems(comp), seatTag[..], isDone);
      var (st', picked) := visitComp(st, isDone, comp);
      marked := picked;
      DutifulCall(visitComp, st, done, comp);
      log := log + [Event(st, done, comp)];
      st := st';
      forall s | s in picked {
        seatTag[s] := -1;
      }
      MarkedDone(tags, Elems(comp), marked, seatTag[..]);
    }

    /** Visit a seat: open it, follow its edges, and if nothing it opened leads
        further back, deliver the component. */
    method Visit(s: nat) returns (minTag: int)
      requires Valid() && s in universe
      modifies this, seatTag
      ensures Valid() && old(tag) <= tag && Kept(old(seatTag[..]), old(tag), seatTag[..])
      ensures old(log) <= log && AllDone(log, |old(log)|, DoneOf(seatTag[..]))
      ensures old(seatTag[s]) != 0 ==> minTag == old(seatTag[s])
      ensures old(seatTag[s]) != 0 ==> tag == old(tag) && stack == old(stack) && seatTag[..] == old(seatTag[..])
      ensures old(seatTag[s]) == 0 ==>
        Outcome(g, seatTag[..], old(tag), s, old(stack), stack, minTag)
      ensures peak <= Max(old(peak), |old(stack)| + Triangle(|old(Fresh())|))
      decreases Pending(), Fresh(), 0
    {
      hide Growing, Kept, AllDone, Run, Opened, Triangle, Since, Dutiful, IsComponent, Settled, DoneOf, WhiteOf;
      hide Outcome;
      ghost var t, tags0, fresh0, log0 := tag, seatTag[..], Fresh(), log;
      VisitNothing(tags0, t, log, DoneOf(tags0));
      if seatTag[s] != 0 {
        return seatTag[s];
      }
      var pos := |stack|;
      Open(s);
      ghost var tags1 := seatTag[..];
      minTag := Explore(s, tags0, t);
      KeptMeasures(tags0, t, seatTag[..], universe);
      KeptMeasures(tags1, t + 1, seatTag[..], universe);
      GroupBudget(g, tags0, t, seatTag[..], s, stack[pos..], minTag, |g[s]|, universe);
      LowRange(g, seatTag[..], t, s, stack[pos..], minTag, |g[s]|);
      if minTag == seatTag[s] {
        GrowComponent(g, seatTag[..], t, s, stack[pos..]);
        ghost var tags, c, logE := seatTag[..], tag, log;
        TriangleMono(|Fresh()| + |stack[pos..]|, |fresh0|);
        Finish(pos, t);
        assert stack == old(stack);
        VisitComponent(g, tags0, t, tags, c, seatTag[..], s, stack, log0, logE, log);
      } else {
        VisitOpen(g, seatTag[..], t, s, old(stack), stack, minTag);
      }
    }

    /** Follow the edges of the seat just opened. */
    method Explore(s: nat, ghost tags0: seq<int>, ghost t: int) returns (minTag: int)
      requires Valid() && s in universe && t >= 0 && tag == t + 1 && |tags0| == |g| && |stack| > 0
      requires (forall x :: 0 <= x < |tags0| ==> -1 <= tags0[x] <= t) && tags0[s] == 0
      requires seatTag[..] == tags0[s := tag] && stack[|stack| - 1] == s
      modifies this, seatTag
      ensures Valid() && t < tag && Kept(tags0, t, seatTag[..]) && seatTag[s] == t + 1
      ensures Kept(old(seatTag[..]), old(tag), seatTag[..])
      ensures old(log) <= log && AllDone(log, |old(log)|, DoneOf(seatTag[..]))
      ensures old(stack) <= stack
      ensures Growing(g, seatTag[..], t, s, stack[|old(stack)| - 1..], minTag, |g[s]|)
      ensures peak <= Max(Max(old(peak), |old(stack)|), |old(stack)| - 1 + Triangle(|WhiteOf(tags0) * universe|))
      decreases Pending(), Fresh(), 1
    {
      hide Growing, Kept, AllDone, Run, Outcome, Triangle, Since, DoneOf, WhiteOf, Dutiful;
      var pos := |stack| - 1;
      ghost var bound := |WhiteOf(tags0) * universe|;
      GrowStart(g, seatTag[..], t, s);
      ExploreStart(tags0, t, s, log, DoneOf(seatTag[..]));
      assert stack[pos..] == [s];
      minTag := seatTag[s];
      for k := 0 to |g[s]|
        invariant Valid() && t < tag && Kept(tags0, t, seatTag[..]) && seatTag[s] == t + 1
        invariant old(log) <= log && AllDone(log, |old(log)|, DoneOf(seatTag[..]))
        invariant old(stack) <= stack && Kept(old(seatTag[..]), old(tag), seatTag[..]) && old(tag) <= tag
        invariant Growing(g, seatTag[..], t, s, stack[pos..], minTag, k)
        invariant peak <= Max(Max(old(peak), pos + 1), pos + Triangle(bound))
      {
        ghost var tags, c, group, below, logK := seatTag[..], tag, stack[pos..], stack, log;
        GroupBudget(g, tags0, t, tags, s, group, minTag, k, universe);
        KeptMeasures(old(seatTag[..]), old(tag), tags, universe);
        var m := Visit(g[s][k]);
        FollowEdge(g, tags, t, s, below, pos, minTag, k, c, seatTag[..], stack, m);
        KeptTrans(tags0, t, tags, c, seatTag[..]);
        KeptTrans(old(seatTag[..]), old(tag), tags, c, seatTag[..]);
        KeptDoneFrom(|old(log)|, logK, tags, c, log, seatTag[..]);
        if 0 < m < minTag {
          minTag := m;
        }
      }
    }

    /** Visit each member of the delivered group until it is done. */
    method SettleGroup(pos: nat, ghost tags: seq<int>, ghost t: int, ghost done: set<nat>, ghost comp: set<nat>,
                       ghost marked: set<nat>, ghost k: nat)
      requires Valid() && pos < |stack| && t <= tag && comp <= universe
      requires Settling(g, tags, t, done, comp, marked, seatTag[..])
      requires k <= |log| && AllDone(log, k, DoneOf(seatTag[..]))
      requires Distinct(stack[pos..]) && Elems(stack[pos..]) == comp
      modifies this, seatTag
      ensures Valid() && old(tag) <= tag && stack == old(stack)
      ensures Settling(g, tags, t, done, comp, marked, seatTag[..])
      ensures forall j :: pos <= j < |stack| ==> stack[j] < |g| && seatTag[stack[j]] == -1
      ensures old(log) <= log && AllDone(log, k, DoneOf(seatTag[..]))
      ensures peak <= Max(old(peak), pos + Triangle(|WhiteOf(tags) * universe| + |stack[pos..]|))
      decreases universe - DoneOf(tags), WhiteOf(tags) * universe, 0
    {
      hide Run, Dutiful, Triangle, Settling, AllDone, WhiteOf, DoneOf, Distinct;
      ghost var bound := |WhiteOf(tags) * universe| + |stack[pos..]|;
      var i := pos;
      while i < |stack|
        invariant pos <= i <= |stack| && Valid() && old(tag) <= tag && stack == old(stack)
        invariant Settling(g, tags, t, done, comp, marked, seatTag[..])
        invariant forall j :: pos <= j < i ==> stack[j] < |g| && seatTag[stack[j]] == -1
        invariant old(log) <= log && AllDone(log, k, DoneOf(seatTag[..]))
        invariant peak <= Max(old(peak), pos + Triangle(bound))
      {
        InStack(stack, pos, i, comp, tags, t, universe);
        while seatTag[stack[i]] != -1
          invariant Valid() && old(tag) <= tag && stack == old(stack)
          invariant Settling(g, tags, t, done, comp, marked, seatTag[..])
          invariant forall j :: pos <= j < i ==> stack[j] < |g| && seatTag[stack[j]] == -1
          invariant old(log) <= log && AllDone(log, k, DoneOf(seatTag[..]))
          invariant peak <= Max(old(peak), pos + Triangle(bound))
          decreases if seatTag[stack[i]] != -1 then 1 else 0
        {
          SettlingMeasures(g, tags, t, done, comp, marked, seatTag[..], universe, stack[pos..]);
          Revisit(stack[i], tags, t, done, comp, marked, pos, k);
        }
        i := i + 1;
      }
    }

    /** Visit a seat of a delivered component again. */
    method Revisit(s: nat, ghost tags: seq<int>, ghost t: int, ghost done: set<nat>, ghost comp: set<nat>,
                   ghost marked: set<nat>, ghost pos: nat, ghost k: nat)
      requires Valid() && t <= tag && s in comp && s < |g| && seatTag[s] == 0 && comp <= universe
      requires Settling(g, tags, t, done, comp, marked, seatTag[..])
      requires k <= |log| && AllDone(log, k, DoneOf(seatTag[..]))
      requires pos <= |stack| && Distinct(stack[pos..]) && Elems(stack[pos..]) == comp
      modifies this, seatTag
      ensures Valid() && old(tag) <= tag && stack == old(stack) && seatTag[s] == -1
      ensures Settling(g, tags, t, done, comp, marked, seatTag[..])
      ensures forall x: nat :: x < |g| && old(seatTag[x]) == -1 ==> seatTag[x] == -1
      ensures old(log) <= log && AllDone(log, k, DoneOf(seatTag[..]))
      ensures peak <= Max(old(peak), pos + Triangle(|WhiteOf(tags) * universe| + |stack[pos..]|))
      decreases Pending(), Fresh(), 1
    {
      hide Run, Dutiful, IsScc, Triangle, Settling, AllDone, WhiteOf, DoneOf, Since, Distinct, Elems;
      SettlingMeasures(g, tags, t, done, comp, marked, seatTag[..], universe, stack[pos..]);
      TriangleStep(|WhiteOf(tags) * universe| + |stack[pos..]|, |stack[pos..]|, |Fresh()|);
      var m := Visit(s);
      SettlingStep(g, tags, t, done, comp, marked, old(seatTag[..]), old(tag), seatTag[..], s, old(stack), stack, m);
      KeptDoneFrom(k, old(log), old(seatTag[..]), old(tag), log, seatTag[..]);
    }

    /** Nothing is open: the walk is between two relevant seats. */
    ghost predicate Idle()
      reads this, seatTag
    {
      && Valid() && stack == [] && AllDone(log, 0, DoneOf(seatTag[..]))
      && forall s: nat :: s < |g| ==> seatTag[s] <= 0
    }

    /** Visit a relevant seat. */
    method Start(s: nat)
      requires Idle() && s in universe
      modifies this, seatTag
      ensures Idle() && seatTag[s] == -1
      ensures forall x: nat :: x < |g| && old(seatTag[x]) == -1 ==> seatTag[x] == -1
      ensures peak <= Max(old(peak), Triangle(|universe|))
    {
      hide Run, Dutiful, Triangle, AllDone, WhiteOf, DoneOf, Since, Opened;
      SubsetCard(Fresh(), universe);
      TriangleMono(|Fresh()|, |universe|);
      var m := Visit(s);
      TopCloses(g, old(seatTag[..]), old(tag), seatTag[..], s, stack, m);
      KeptDoneFrom(0, old(log), old(seatTag[..]), old(tag), log, seatTag[..]);
    }

    /** Deliver the component on top of the stack, visit again what the callback
        left, and pop it. */
    method Finish(pos: nat, ghost t: int)
      requires Valid() && pos < |stack| && 0 <= t < tag
      requires IsComponent(g, DoneOf(seatTag[..]), stack[pos..])
      requires Elems(stack[pos..]) == Since(seatTag[..], t)
      modifies this, seatTag
      ensures Valid() && old(tag) <= tag && stack == old(stack)[..pos]
      ensures Settled(old(seatTag[..]), t, seatTag[..])
      ensures old(log) <= log && AllDone(log, |old(log)|, DoneOf(seatTag[..]))
      ensures peak <= Max(old(peak), pos + Triangle(|old(Fresh())| + |old(stack)[pos..]|))
      decreases Pending(), Fresh(), 1
    {
      hide Run, Dutiful, IsScc, Triangle, Settling, AllDone, Settled, WhiteOf, DoneOf, Marked, Since, Distinct;
      hide IsComponent;
      ghost var tags, done, comp, tagC, logC := seatTag[..], DoneOf(seatTag[..]), Elems(stack[pos..]), tag, log;
      CompInside(g, tags, t, stack[pos..], universe);
      ghost var marked := Deliver(pos);
      SettlingStart(g, tags, t, done, stack[pos..], marked, seatTag[..], universe);
      VisitNothing(tags, tag, log, DoneOf(seatTag[..]));
      SettleGroup(pos, tags, t, done, comp, marked, |logC| + 1);
      assert forall j {:trigger stack[pos..][j]} :: 0 <= j < |stack[pos..]| ==> stack[pos..][j] == stack[pos + j];
      SettlingEnd(g, tags, t, done, stack[pos..], marked, seatTag[..], log, |logC|);
      stack := stack[..pos];
    }
  }

  ghost function Roots(seats: seq<nat>, relevant: set<nat>): set<nat> {
    set s | s in seats && s in relevant
  }

  /** A finished walk has settled all successors of what it settled. */
  lemma {:induction false} RunClosed<St(!new)>(g: Graph, f: Visitor<St>, init: St, log: seq<Event<St>>, st: St,
                                        done: set<nat>, final: set<nat>)
    requires Run(g, f, init, log, st, done) && AllDone(log, 0, final) && done <= final && Dutiful(f)
    ensures forall v, w :: v in done && v < |g| && w in g[v] ==> w in final
    ensures done <= Everything(g)
    decreases |log|
  {
    if log != [] {
      var e := log[|log| - 1];
      RunClosed(g, f, init, log[..|log| - 1], e.before, e.done, final);
      DutifulCall(f, e.before, e.done, e.seats);
      forall v, w | v in done && v < |g| && w in g[v] ensures w in final {
        if v !in e.done {
          assert v in Elems(e.seats);
        }
      }
    }
  }

  lemma RunComplete<St(!new)>(g: Graph, f: Visitor<St>, init: St, log: seq<Event<St>>, st: St, done: set<nat>,
                       roots: set<nat>)
    requires Run(g, f, init, log, st, done) && AllDone(log, 0, done) && Dutiful(f)
    requires roots <= done <= ReachableSet(g, roots)
    ensures done == ReachableSet(g, roots)
  {
    RunClosed(g, f, init, log, st, done, done);
    ReachableLeast(g, roots, done);
  }

  /** Walk the graph from all relevant seats. The walk ends with exactly the
      seats reachable from them done; `log` records what the callback saw. */
  method Order<St(!new)>(g: Graph, seats: seq<nat>, relevant: set<nat>, visitComp: Visitor<St>, init: St)
    returns (st: St, done: set<nat>, ghost log: seq<Event<St>>, ghost peak: nat)
    requires ValidGraph(g) && Dutiful(visitComp)
    requires forall s :: s in seats ==> s < |g|
    ensures Run(g, visitComp, init, log, st, done) && AllDone(log, 0, done)
    ensures done == ReachableSet(g, Roots(seats, relevant))
    ensures peak <= |done| * (|done| + 1) / 2
  {
    hide Run, Dutiful, Triangle, ReachableSet, AllDone, DoneOf, WhiteOf;
    ghost var roots := Roots(seats, relevant);
    ghost var universe := ReachableSet(g, roots);
    UniverseClosed(g, roots);
    var walk := new Walk<St>(g, visitComp, init, universe);
    assert AllDone(walk.log, 0, DoneOf(walk.seatTag[..])) by {
      AllDoneEmpty(walk.log, DoneOf(walk.seatTag[..]));
    }
    for i := 0 to |seats|
      modifies walk, walk.seatTag
      invariant walk.Idle()
      invariant forall j :: 0 <= j < i && seats[j] in relevant ==> seats[j] < |g| && walk.seatTag[seats[j]] == -1
      invariant walk.peak <= Triangle(|universe|)
    {
      if seats[i] in relevant {
        assert seats[i] in roots;
        ghost var tags := walk.seatTag[..];
        walk.Start(seats[i]);
        assert forall x: nat :: x < |g| && tags[x] == -1 ==> walk.seatTag[x] == -1;
      }
    }
    st := walk.st;
    done := set s | 0 <= s < |g| && walk.seatTag[s] == -1;
    log, peak := walk.log, walk.peak;
    ResetDone(walk.seatTag[..], {}, walk.seatTag[..], done);
    TagsInside(walk.seatTag[..], universe);
    RunComplete(g, visitComp, init, log, st, done, roots);
    TriangleClosedForm(|universe|);
  }

  lemma UniverseClosed(g: Graph, roots: set<nat>)
    requires ValidGraph(g) && (forall r :: r in roots ==> r < |g|)
    ensures roots <= ReachableSet(g, roots) <= Everything(g) && ClosedBut(g, ReachableSet(g, roots), {})
  {
    ReachableRoots(g, roots);
    forall v, w | v in ReachableSet(g, roots) && v < |g| && w in g[v] ensures w in ReachableSet(g, roots) {
      ReachableStep(g, roots, v, w);
    }
  }

  lemma TagsInside(tags: seq<int>, universe: set<nat>)
    requires forall s: nat :: s < |tags| && tags[s] != 0 ==> s in universe
    ensures DoneOf(tags) <= universe
  {
  }

  lemma AllDoneEmpty<St>(log: seq<Event<St>>, done: set<nat>)
    requires log == []
    ensures AllDone(log, 0, done)
  {
  }
}
