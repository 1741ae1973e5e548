/** Checking the goal: a three-valued evaluation over the component walk finds
    the seats whose dependencies hold, then a sweep finds those the goal needs. */
module Cleanup {
  import opened Basics
  import opened Graphs
  import opened Network
  import opened Ordering

  /* Three-valued logic. */

  datatype L3 = T | F | U

  const OR_TABLE: seq<seq<L3>> := [[T, T, T], [T, F, U], [T, U, U]]
  const AND_TABLE: seq<seq<L3>> := [[T, F, U], [F, F, F], [U, F, U]]

  function Index(a: L3): nat {
    match a
    case T => 0
    case F => 1
    case U => 2
  }

  function Or(a: L3, b: L3): (r: L3)
    ensures r == T <==> a == T || b == T
    ensures r == F <==> a == F && b == F
  {
    OR_TABLE[Index(a)][Index(b)]
  }

  function And(a: L3, b: L3): (r: L3)
    ensures r == F <==> a == F || b == F
    ensures r == T <==> a == T && b == T
  {
    AND_TABLE[Index(a)][Index(b)]
  }

  /* What the callback computes, stated without loops. */

  function SeatOk(done: set<Seat>, ok: set<Seat>, s: Seat): L3 {
    if s !in done then U else if s in ok then T else F
  }

  function AltsOk(net: Net, sel: Selection, done: set<Seat>, ok: set<Seat>, alts: seq<Cand>): L3 {
    if exists a :: a in alts && IsSelected(net, sel, a) && SeatOk(done, ok, SeatOf(net, a)) == T then T
    else if exists a :: a in alts && IsSelected(net, sel, a) && SeatOk(done, ok, SeatOf(net, a)) == U then U
    else F
  }

  function DepsOk(net: Net, sel: Selection, done: set<Seat>, ok: set<Seat>, deps: seq<Dep>): L3 {
    if exists d :: d in deps && AltsOk(net, sel, done, ok, d.alts) == F then F
    else if exists d :: d in deps && AltsOk(net, sel, done, ok, d.alts) == U then U
    else T
  }

  /** The effect of the first `n` seats of a component: the ok seats and the seats marked. */
  function Sweep(net: Net, sel: Selection, done: set<Seat>, ok: set<Seat>, seats: seq<Seat>, n: nat): (set<Seat>,
                 set<Seat>)
    requires n <= |seats|
  {
    if n == 0 then (ok, {})
    else
      var (ok1, marked) := Sweep(net, sel, done, ok, seats, n - 1);
      var s := seats[n - 1];
      match DepsOk(net, sel, done + marked, ok1, SeatDeps(net, sel, s))
      case U => (ok1, marked)
      case T => (ok1 + {s}, marked + {s})
      case F => (ok1 - {s}, marked + {s})
  }

  function Judge(net: Net, sel: Selection, ok: set<Seat>, done: set<Seat>, seats: seq<Seat>): (set<Seat>, set<Seat>) {
    var (ok1, marked) := Sweep(net, sel, done, ok, seats, |seats|);
    if marked == {} then (ok1 + Elems(seats), Elems(seats)) else (ok1, marked)
  }

  function Judging(net: Net, sel: Selection): Visitor<set<Seat>> {
    (ok: set<Seat>, done: set<Seat>, seats: seq<Seat>) => Judge(net, sel, ok, done, seats)
  }

  lemma {:induction false} SweepMarks(net: Net, sel: Selection, done: set<Seat>, ok: set<Seat>, seats: seq<Seat>,
                                      n: nat)
    requires n <= |seats|
    ensures Sweep(net, sel, done, ok, seats, n).1 <= Elems(seats[..n])
  {
    if n > 0 {
      SweepMarks(net, sel, done, ok, seats, n - 1);
      assert seats[..n] == seats[..n - 1] + [seats[n - 1]];
    }
  }

  lemma JudgingDutiful(net: Net, sel: Selection)
    ensures Dutiful(Judging(net, sel))
  {
    var f := Judging(net, sel);
    forall st, done, seats | seats != [] && Distinct(seats) && Elems(seats) !! done
      ensures f(st, done, seats).1 != {} && f(st, done, seats).1 <= Elems(seats)
    {
      SweepMarks(net, sel, done, st, seats, |seats|);
      assert seats[..|seats|] == seats;
      assert seats[0] in Elems(seats);
    }
  }

  /* The callback itself. */

  method JudgeAlts(net: Net, sel: Selection, done: set<Seat>, ok: set<Seat>, alts: seq<Cand>) returns (altsOk: L3)
    ensures altsOk == AltsOk(net, sel, done, ok, alts)
  {
    altsOk := F;
    for i := 0 to |alts|
      invariant altsOk == AltsOk(net, sel, done, ok, alts[..i]) && altsOk != T
    {
      assert alts[..i + 1] == alts[..i] + [alts[i]];
      if IsSelected(net, sel, alts[i]) {
        altsOk := Or(altsOk, SeatOk(done, ok, SeatOf(net, alts[i])));
        if altsOk == T {
          assert alts[i] in alts;
          return;
        }
      }
    }
    assert alts[..|alts|] == alts;
  }

  method JudgeDeps(net: Net, sel: Selection, done: set<Seat>, ok: set<Seat>, deps: seq<Dep>) returns (depsOk: L3)
    ensures depsOk == DepsOk(net, sel, done, ok, deps)
  {
    depsOk := T;
    for i := 0 to |deps|
      invariant depsOk == DepsOk(net, sel, done, ok, deps[..i]) && depsOk != F
    {
      assert deps[..i + 1] == deps[..i] + [deps[i]];
      var altsOk := JudgeAlts(net, sel, done, ok, deps[i].alts);
      depsOk := And(depsOk, altsOk);
      if depsOk == F {
        assert deps[i] in deps;
        return;
      }
    }
    assert deps[..|deps|] == deps;
  }

  method JudgeComponent(net: Net, sel: Selection, ok0: set<Seat>, done: set<Seat>, seats: seq<Seat>)
    returns (ok: set<Seat>, marked: set<Seat>)
    ensures (ok, marked) == Judge(net, sel, ok0, done, seats)
  {
    ok, marked := ok0, {};
    var someDone := false;
    for i := 0 to |seats|
      invariant (ok, marked) == Sweep(net, sel, done, ok0, seats, i)
      invariant someDone <==> marked != {}
    {
      var depsOk := JudgeDeps(net, sel, done + marked, ok, SeatDeps(net, sel, seats[i]));
      if depsOk != U {
        ok := if depsOk == T then ok + {seats[i]} else ok - {seats[i]};
        marked := marked + {seats[i]};
        someDone := true;
      }
    }
    if !someDone {
      for i := 0 to |seats|
        invariant ok == Sweep(net, sel, done, ok0, seats, |seats|).0 + Elems(seats[..i])
        invariant marked == Elems(seats[..i])
      {
        assert seats[..i + 1] == seats[..i] + [seats[i]];
        ok := ok + {seats[i]};
        marked := marked + {seats[i]};
      }
      assert seats[..|seats|] == seats;
    }
  }

  /* Self-supporting sets. */

  /** Some selected alternative of the dep sits on a seat of `support`. */
  predicate Supported(net: Net, sel: Selection, d: Dep, support: set<Seat>) {
    exists a :: a in d.alts && IsSelected(net, sel, a) && SeatOf(net, a) in support
  }

  /** Every dep of every member is supported from within the set. */
  ghost predicate SelfSupporting(net: Net, sel: Selection, support: set<Seat>) {
    forall s, d :: s in support && d in SeatDeps(net, sel, s) ==> Supported(net, sel, d, support)
  }

  /** `ok` is the greatest self-supporting set, as far as `done` goes. */
  ghost predicate Greatest(net: Net, sel: Selection, ok: set<Seat>, done: set<Seat>) {
    && ok <= done && SelfSupporting(net, sel, ok)
    && forall support :: SelfSupporting(net, sel, support) ==> support * done <= ok
  }

  lemma SupportedMono(net: Net, sel: Selection, d: Dep, support: set<Seat>, wider: set<Seat>)
    requires Supported(net, sel, d, support) && support <= wider
    ensures Supported(net, sel, d, wider)
  {
  }

  lemma NotSupported(net: Net, sel: Selection, done: set<Seat>, ok: set<Seat>, d: Dep, support: set<Seat>)
    requires AltsOk(net, sel, done, ok, d.alts) == F && support * done <= ok
    ensures !Supported(net, sel, d, support)
  {
    forall a | a in d.alts && IsSelected(net, sel, a) ensures SeatOf(net, a) !in support {
      assert SeatOk(done, ok, SeatOf(net, a)) == F;
    }
  }

  /** One seat whose deps were judged true or false. */
  lemma GreatestStep(net: Net, sel: Selection, ok: set<Seat>, done: set<Seat>, s: Seat)
    requires Greatest(net, sel, ok, done) && s !in done
    ensures DepsOk(net, sel, done, ok, SeatDeps(net, sel, s)) == T ==> Greatest(net, sel, ok + {s}, done + {s})
    ensures DepsOk(net, sel, done, ok, SeatDeps(net, sel, s)) == F ==> Greatest(net, sel, ok - {s}, done + {s})
  {
    var deps := SeatDeps(net, sel, s);
    if DepsOk(net, sel, done, ok, deps) == T {
      forall r, d | r in ok + {s} && d in SeatDeps(net, sel, r) ensures Supported(net, sel, d, ok + {s}) {
        if r in ok {
          SupportedMono(net, sel, d, ok, ok + {s});
        } else {
          assert AltsOk(net, sel, done, ok, d.alts) == T;
        }
      }
    } else if DepsOk(net, sel, done, ok, deps) == F {
      assert ok - {s} == ok;
      var d :| d in deps && AltsOk(net, sel, done, ok, d.alts) == F;
      forall support | SelfSupporting(net, sel, support) ensures support * (done + {s}) <= ok {
        NotSupported(net, sel, done, ok, d, support);
      }
    }
  }

  lemma {:induction false} SweepGreatest(net: Net, sel: Selection, done: set<Seat>, ok: set<Seat>, seats: seq<Seat>,
                                         n: nat)
    requires n <= |seats| && Distinct(seats) && Elems(seats) !! done && Greatest(net, sel, ok, done)
    ensures var (ok1, marked) := Sweep(net, sel, done, ok, seats, n);
      Greatest(net, sel, ok1, done + marked)
  {
    hide Greatest, DepsOk, SeatDeps, Elems;
    if n == 0 {
      assert done + {} == done;
    } else {
      SweepGreatest(net, sel, done, ok, seats, n - 1);
      SweepMarks(net, sel, done, ok, seats, n - 1);
      var (ok1, marked) := Sweep(net, sel, done, ok, seats, n - 1);
      var s := seats[n - 1];
      NotBefore(seats, n - 1);
      GreatestStep(net, sel, ok1, done + marked, s);
      assert done + marked + {s} == done + (marked + {s});
    }
  }

  lemma NotBefore(seats: seq<Seat>, n: nat)
    requires n < |seats| && Distinct(seats)
    ensures seats[n] in Elems(seats) && seats[n] !in Elems(seats[..n])
  {
  }

  lemma {:induction false} SweepUnknown(net: Net, sel: Selection, done: set<Seat>, ok: set<Seat>, seats: seq<Seat>,
                                        n: nat)
    requires n <= |seats| && Sweep(net, sel, done, ok, seats, n).1 == {}
    ensures Sweep(net, sel, done, ok, seats, n).0 == ok
    ensures forall i :: 0 <= i < n ==> DepsOk(net, sel, done, ok, SeatDeps(net, sel, seats[i])) == U
  {
    hide DepsOk;
    if n > 0 {
      SweepUnknown(net, sel, done, ok, seats, n - 1);
      assert done + {} == done;
    }
  }

  /** A component in which every seat waits for another one supports itself. */
  lemma UnknownSupports(net: Net, sel: Selection, done: set<Seat>, ok: set<Seat>, seats: seq<Seat>)
    requires ValidNet(net) && ValidSelection(net, sel) && Greatest(net, sel, ok, done)
    requires IsComponent(SelectedGraph(net, sel), done, seats)
    requires forall i :: 0 <= i < |seats| ==> DepsOk(net, sel, done, ok, SeatDeps(net, sel, seats[i])) == U
    ensures Greatest(net, sel, ok + Elems(seats), done + Elems(seats))
  {
    var g, comp := SelectedGraph(net, sel), Elems(seats);
    forall s, d | s in ok + comp && d in SeatDeps(net, sel, s) ensures Supported(net, sel, d, ok + comp) {
      if s in ok {
        SupportedMono(net, sel, d, ok, ok + comp);
      } else {
        assert AltsOk(net, sel, done, ok, d.alts) != F;
        var a :| a in d.alts && IsSelected(net, sel, a) && SeatOk(done, ok, SeatOf(net, a)) != F;
        SelectedEdge(net, sel, s, d, a);
        assert SeatOf(net, a) in comp || SeatOf(net, a) in done;
      }
    }
  }

  lemma JudgeGreatest(net: Net, sel: Selection, ok: set<Seat>, done: set<Seat>, seats: seq<Seat>)
    requires ValidNet(net) && ValidSelection(net, sel) && Greatest(net, sel, ok, done)
    requires IsComponent(SelectedGraph(net, sel), done, seats)
    ensures var (ok1, marked) := Judge(net, sel, ok, done, seats); Greatest(net, sel, ok1, done + marked)
  {
    SweepGreatest(net, sel, done, ok, seats, |seats|);
    if Sweep(net, sel, done, ok, seats, |seats|).1 == {} {
      SweepUnknown(net, sel, done, ok, seats, |seats|);
      UnknownSupports(net, sel, done, ok, seats);
    }
  }

  /** Over any run of the walk, the ok seats are the greatest self-supporting
      set among the seats done so far. */
  lemma {:induction false} RunGreatest(net: Net, sel: Selection, log: seq<Event<set<Seat>>>, ok: set<Seat>,
                                       done: set<Seat>)
    requires ValidNet(net) && ValidSelection(net, sel)
    requires Run(SelectedGraph(net, sel), Judging(net, sel), {}, log, ok, done)
    ensures Greatest(net, sel, ok, done)
    decreases |log|
  {
    if log != [] {
      var e := log[|log| - 1];
      RunGreatest(net, sel, log[..|log| - 1], e.before, e.done);
      JudgeGreatest(net, sel, e.before, e.done, e.seats);
    }
  }

  /* The sweep from the goal. */

  /** The alternatives the sweep follows: those on ok seats if there are any. */
  function Followed(net: Net, ok: set<Seat>, d: Dep): set<Cand> {
    if exists a :: a in d.alts && SeatOf(net, a) in ok
    then set a | a in d.alts && SeatOf(net, a) in ok
    else set a | a in d.alts
  }

  predicate Follows(net: Net, sel: Selection, ok: set<Seat>, s: Seat, w: Seat) {
    exists d :: d in SeatDeps(net, sel, s) &&
      exists a :: a in Followed(net, ok, d) && IsSelected(net, sel, a) && SeatOf(net, a) == w
  }

  /** Closed under the edges the sweep follows, except at the seats in `open`. */
  ghost predicate Swept(net: Net, sel: Selection, ok: set<Seat>, needed: set<Seat>, open: set<Seat>) {
    forall s, w :: s in needed && s !in open && Follows(net, sel, ok, s, w) ==> w in needed
  }

  /** `w` can be reached from `s` along the edges the sweep follows. */
  ghost predicate Leads(net: Net, sel: Selection, ok: set<Seat>, s: Seat, w: Seat) {
    forall closed :: s in closed && Swept(net, sel, ok, closed, {}) ==> w in closed
  }

  lemma LeadsStep(net: Net, sel: Selection, ok: set<Seat>, origin: Seat, s: Seat, d: Dep, a: Cand)
    requires Leads(net, sel, ok, origin, s) && d in SeatDeps(net, sel, s) && a in d.alts
    ensures a in Followed(net, ok, d) && IsSelected(net, sel, a) ==> Leads(net, sel, ok, origin, SeatOf(net, a))
  {
    if a in Followed(net, ok, d) && IsSelected(net, sel, a) {
      assert Follows(net, sel, ok, s, SeatOf(net, a));
    }
  }

  class SeatInfo {
    const net: Net
    const sel: Selection
    const ok: set<Seat>
    var needed: set<Seat>

    constructor (net: Net, sel: Selection, ok: set<Seat>)
      ensures this.net == net && this.sel == sel && this.ok == ok && needed == {}
    {
      this.net, this.sel, this.ok := net, sel, ok;
      needed := {};
    }

    /** Mark the seat of a selected candidate as needed, and all it leads to.
        `open` holds the seats whose visit has begun, `origin` is where the sweep started. */
    method VisitNeeded(c: Cand, ghost open: set<Seat>, ghost origin: Seat)
      requires ValidNet(net) && ValidSelection(net, sel) && c < |net.seatOf|
      requires Swept(net, sel, ok, needed, open) && open <= needed
      requires IsSelected(net, sel, c) ==> Leads(net, sel, ok, origin, SeatOf(net, c))
      modifies this
      ensures old(needed) <= needed && Swept(net, sel, ok, needed, open)
      ensures if IsSelected(net, sel, c) then SeatOf(net, c) in needed else needed == old(needed)
      ensures forall w :: w in needed ==> w in old(needed) || Leads(net, sel, ok, origin, w)
      decreases AllSeats(net) - needed, 0
    {
      hide Leads;
      if !IsSelected(net, sel, c) {
        return;
      }
      var s := SeatOf(net, c);
      if s in needed {
        return;
      }
      needed := needed + {s};
      assert s in AllSeats(net) - old(needed);
      ghost var open1 := open + {s};
      var deps := net.deps[c];
      for i := 0 to |deps|
        invariant old(needed) + {s} <= needed && Swept(net, sel, ok, needed, open1)
        invariant forall w :: w in needed ==> w in old(needed) || Leads(net, sel, ok, origin, w)
        invariant forall j, a :: 0 <= j < i && a in Followed(net, ok, deps[j]) && IsSelected(net, sel, a) ==>
          SeatOf(net, a) in needed
      {
        assert deps[i] in SeatDeps(net, sel, s);
        VisitAlts(deps[i], s, open1, origin);
      }
      forall w | Follows(net, sel, ok, s, w) ensures w in needed {
        var d :| d in SeatDeps(net, sel, s) &&
          exists a :: a in Followed(net, ok, d) && IsSelected(net, sel, a) && SeatOf(net, a) == w;
        var j :| 0 <= j < |deps| && deps[j] == d;
      }
    }

    method VisitAlts(d: Dep, s: Seat, ghost open: set<Seat>, ghost origin: Seat)
      requires ValidNet(net) && ValidSelection(net, sel) && ValidDep(net, d) && d in SeatDeps(net, sel, s)
      requires Swept(net, sel, ok, needed, open) && open <= needed
      requires Leads(net, sel, ok, origin, s)
      modifies this
      ensures old(needed) <= needed && Swept(net, sel, ok, needed, open)
      ensures forall w :: w in needed ==> w in old(needed) || Leads(net, sel, ok, origin, w)
      ensures forall a :: a in Followed(net, ok, d) && IsSelected(net, sel, a) ==> SeatOf(net, a) in needed
      decreases AllSeats(net) - needed, 1
    {
      hide Leads;
      var foundOk := false;
      for k := 0 to |d.alts|
        invariant old(needed) <= needed && Swept(net, sel, ok, needed, open)
        invariant forall w :: w in needed ==> w in old(needed) || Leads(net, sel, ok, origin, w)
        invariant foundOk <==> exists a :: a in d.alts[..k] && SeatOf(net, a) in ok
        invariant forall a :: a in d.alts[..k] && SeatOf(net, a) in ok && IsSelected(net, sel, a) ==>
          SeatOf(net, a) in needed
      {
        assert d.alts[..k + 1] == d.alts[..k] + [d.alts[k]];
        if SeatOf(net, d.alts[k]) in ok {
          foundOk := true;
          LeadsStep(net, sel, ok, origin, s, d, d.alts[k]);
          VisitNeeded(d.alts[k], open, origin);
        }
      }
      assert d.alts[..|d.alts|] == d.alts;
      if !foundOk {
        for k := 0 to |d.alts|
          invariant old(needed) <= needed && Swept(net, sel, ok, needed, open)
          invariant forall w :: w in needed ==> w in old(needed) || Leads(net, sel, ok, origin, w)
          invariant forall a :: a in d.alts[..k] && IsSelected(net, sel, a) ==> SeatOf(net, a) in needed
        {
          assert d.alts[..k + 1] == d.alts[..k] + [d.alts[k]];
          LeadsStep(net, sel, ok, origin, s, d, d.alts[k]);
          VisitNeeded(d.alts[k], open, origin);
        }
        assert d.alts[..|d.alts|] == d.alts;
      }
    }
  }

  lemma SweptAll(net: Net, sel: Selection, ok: set<Seat>, needed: set<Seat>, origin: Seat)
    requires Swept(net, sel, ok, needed, {}) && origin in needed
    requires forall w :: w in needed ==> Leads(net, sel, ok, origin, w)
    ensures forall w :: w in needed <==> Leads(net, sel, ok, origin, w)
  {
  }

  /** Sweeping from an ok seat stays on ok seats, and supports itself. */
  lemma SweptSupports(net: Net, sel: Selection, ok: set<Seat>, needed: set<Seat>, origin: Seat)
    requires SelfSupporting(net, sel, ok) && Swept(net, sel, ok, needed, {})
    requires origin in ok && forall w :: w in needed ==> Leads(net, sel, ok, origin, w)
    ensures needed <= ok && SelfSupporting(net, sel, needed)
  {
    forall s, d | s in ok && d in SeatDeps(net, sel, s)
      ensures exists a :: a in d.alts && SeatOf(net, a) in ok
    {
      assert Supported(net, sel, d, ok);
    }
    assert Swept(net, sel, ok, ok, {});
    forall w | w in needed ensures w in ok {
      assert Leads(net, sel, ok, origin, w);
    }
    forall s, d | s in needed && d in SeatDeps(net, sel, s) ensures Supported(net, sel, d, needed) {
      assert Supported(net, sel, d, ok);
      var a :| a in d.alts && IsSelected(net, sel, a) && SeatOf(net, a) in ok;
      assert Follows(net, sel, ok, s, SeatOf(net, a));
    }
  }

  function Unneeded(seats: seq<Seat>, needed: set<Seat>): (r: seq<Seat>)
    ensures forall s :: s in r <==> s in seats && s !in needed
  {
    if seats == [] then []
    else
      var rest := Unneeded(seats[..|seats| - 1], needed);
      var s := seats[|seats| - 1];
      assert seats == seats[..|seats| - 1] + [s];
      if s in needed then rest else rest + [s]
  }

  /** The goal holds exactly when some self-supporting set contains its seat. */
  ghost predicate Attainable(net: Net, sel: Selection, goal: Seat) {
    exists support :: SelfSupporting(net, sel, support) && goal in support
  }

  /** A seat that has been done is ok exactly when some set supports it. */
  lemma GoalOk(net: Net, sel: Selection, ok: set<Seat>, done: set<Seat>, s: Seat)
    requires Greatest(net, sel, ok, done) && s in done
    ensures SelfSupporting(net, sel, ok)
    ensures s in ok <==> Attainable(net, sel, s)
  {
    hide SelfSupporting;
    assert forall support :: SelfSupporting(net, sel, support) && s in support ==> s in support * done;
  }

  /** The seats that the goal check calls ok, as a property of the selection alone. */
  ghost function OkSeats(net: Net, sel: Selection, seats: seq<Seat>, marks: set<Seat>): set<Seat> {
    set s | s in ReachableSet(SelectedGraph(net, sel), Roots(seats, marks)) && Attainable(net, sel, s)
  }

  lemma GreatestIsOk(net: Net, sel: Selection, seats: seq<Seat>, marks: set<Seat>, ok: set<Seat>)
    requires Greatest(net, sel, ok, ReachableSet(SelectedGraph(net, sel), Roots(seats, marks)))
    ensures ok == OkSeats(net, sel, seats, marks)
  {
    hide ReachableSet, Attainable;
    var done := ReachableSet(SelectedGraph(net, sel), Roots(seats, marks));
    forall s | s in done ensures s in ok <==> Attainable(net, sel, s) {
      GoalOk(net, sel, ok, done, s);
    }
  }

  /** Before the check: some of the marked seats, that of the goal among them, already contain
      all that they lead to. */
  ghost predicate MarksSuffice(net: Net, sel: Selection, seats: seq<Seat>, relevant: set<Seat>, goal: Cand) {
    var marks := relevant + {SeatOf(net, goal)};
    IsSelected(net, sel, goal) ==>
      exists closed :: SeatOf(net, goal) in closed && closed <= marks
        && Swept(net, sel, OkSeats(net, sel, seats, marks), closed, {})
  }

  /** Only the seat of the goal gets marked, so that a needed seat can be left without a mark. */
  lemma NeededAreMarked(net: Net, sel: Selection, seats: seq<Seat>, relevant: set<Seat>, goal: Cand,
                        ok: set<Seat>, needed: set<Seat>)
    requires var marks := relevant + {SeatOf(net, goal)};
      Greatest(net, sel, ok, ReachableSet(SelectedGraph(net, sel), Roots(seats, marks)))
    requires forall w :: w in needed <==> IsSelected(net, sel, goal) && Leads(net, sel, ok, SeatOf(net, goal), w)
    ensures needed <= relevant + {SeatOf(net, goal)} <==> MarksSuffice(net, sel, seats, relevant, goal)
  {
    hide Greatest, OkSeats, Follows;
    var origin, marks := SeatOf(net, goal), relevant + {SeatOf(net, goal)};
    GreatestIsOk(net, sel, seats, marks, ok);
    if IsSelected(net, sel, goal) {
      assert Leads(net, sel, ok, origin, origin);
      forall s, w | s in needed && Follows(net, sel, ok, s, w) ensures w in needed {
        assert Leads(net, sel, ok, origin, w);
      }
      assert Swept(net, sel, ok, needed, {});
      if closed :| origin in closed && closed <= marks && Swept(net, sel, ok, closed, {}) {
        forall w | w in needed ensures w in marks {
          assert Leads(net, sel, ok, origin, w);
        }
      }
    }
  }

  /** Check the goal. `unused` lists the seats that the goal does not need, in order;
      `ok` and `needed` are the flags at the end, `marks` the seats then marked as relevant. */
  method CleanupGoal(net: Net, sel: Selection, seats: seq<Seat>, relevant: set<Seat>, goal: Cand)
    returns (goalOk: bool, unused: seq<Seat>, marks: set<Seat>, ghost ok: set<Seat>, ghost needed: set<Seat>)
    requires ValidNet(net) && ValidSelection(net, sel) && goal < |net.seatOf|
    requires SeatOf(net, goal) in seats && forall s :: s in seats ==> s < net.seats
    ensures goalOk <==> Attainable(net, sel, SeatOf(net, goal))
    ensures Greatest(net, sel, ok,
                     ReachableSet(SelectedGraph(net, sel), Roots(seats, relevant + {SeatOf(net, goal)})))
    ensures forall w :: w in needed <==> IsSelected(net, sel, goal) && Leads(net, sel, ok, SeatOf(net, goal), w)
    ensures unused == Unneeded(seats, needed)
    ensures goalOk ==> SelfSupporting(net, sel, needed)
    ensures marks == relevant + {SeatOf(net, goal)} && ok == OkSeats(net, sel, seats, marks)
    ensures needed <= marks <==> MarksSuffice(net, sel, seats, relevant, goal)
  {
    hide OkSeats, MarksSuffice;
    hide Greatest, Attainable, Run, Dutiful, ReachableSet, ValidGraph;
    var g := SelectedGraph(net, sel);
    var s := SeatOf(net, goal);
    SelectedGraphValid(net, sel);
    JudgingDutiful(net, sel);
    marks := relevant + {s};
    var flags, done, log, peak := Order(g, seats, marks, Judging(net, sel), {});
    ok := flags;
    RunGreatest(net, sel, log, ok, done);
    ReachableRoots(g, Roots(seats, marks));
    goalOk := s in flags;
    GoalOk(net, sel, ok, done, s);
    var info := new SeatInfo(net, sel, flags);
    info.VisitNeeded(goal, {}, s);
    needed := info.needed;
    if IsSelected(net, sel, goal) {
      SweptAll(net, sel, ok, needed, s);
      if goalOk {
        SweptSupports(net, sel, ok, needed, s);
      }
    }
    GreatestIsOk(net, sel, seats, marks, ok);
    NeededAreMarked(net, sel, seats, relevant, goal, ok, needed);
    unused := [];
    for i := 0 to |seats|
      invariant unused == Unneeded(seats[..i], needed)
      invariant needed == info.needed
    {
      assert seats[..i + 1][..i] == seats[..i];
      if seats[i] !in info.needed {
        unused := unused + [seats[i]];
      }
    }
    assert seats[..|seats|] == seats;
  }

  /** A goal whose only dep is on a seat that is not relevant. */
  function TwoSeats(): Net {
    Net(2, [0, 1], [[Dep([1], None, false, false)], []])
  }

  /** That seat is needed, but does not get marked. */
  lemma NeededNotMarked(ok: set<Seat>)
    ensures ValidNet(TwoSeats()) && ValidSelection(TwoSeats(), [0, 1]) && IsSelected(TwoSeats(), [0, 1], 0)
    ensures Leads(TwoSeats(), [0, 1], ok, SeatOf(TwoSeats(), 0), 1) && 1 !in {} + {SeatOf(TwoSeats(), 0)}
  {
    var net, sel := TwoSeats(), [0, 1];
    var d := Dep([1], None, false, false);
    assert d in SeatDeps(net, sel, 0);
    assert 1 in Followed(net, ok, d) && IsSelected(net, sel, 1) && SeatOf(net, 1) == 1;
    assert Follows(net, sel, ok, 0, 1);
  }

  /** The selection after every unused seat went back to its initial candidate. */
  function Reverted(net: Net, sel: Selection, initial: Selection, unused: seq<Seat>): Selection
    requires |initial| == |sel|
  {
    seq(|sel|, s requires 0 <= s < |sel| => if s in unused then initial[s] else sel[s])
  }

  /** Reverting what the goal does not need leaves the goal supported. */
  lemma RevertKeepsGoal(net: Net, sel: Selection, initial: Selection, seats: seq<Seat>, needed: set<Seat>)
    requires ValidNet(net) && ValidSelection(net, sel) && ValidSelection(net, initial)
    requires SelfSupporting(net, sel, needed)
    ensures var sel' := Reverted(net, sel, initial, Unneeded(seats, needed));
      && ValidSelection(net, sel') && SelfSupporting(net, sel', needed)
      && (forall goal :: goal in needed ==> Attainable(net, sel', goal))
      && (forall s :: s in needed && s < |sel| ==> sel'[s] == sel[s])
  {
    var sel' := Reverted(net, sel, initial, Unneeded(seats, needed));
    forall s, d | s in needed && d in SeatDeps(net, sel', s) ensures Supported(net, sel', d, needed) {
      assert d in SeatDeps(net, sel, s);
      assert Supported(net, sel, d, needed);
      var a :| a in d.alts && IsSelected(net, sel, a) && SeatOf(net, a) in needed;
      assert IsSelected(net, sel', a);
    }
  }
}
