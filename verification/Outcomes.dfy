/** What carrying out a plan does, said of the recorded status of packages and of the fields that deps
    come from. */
module Outcomes {
  import opened Basics
  import opened Graphs
  import opened Network
  import opened Ordering
  import opened Execution

  /* What an action leaves behind. */

  predicate On(a: Action, s: Seat) {
    !a.GaveUp? && a.seat == s
  }

  /** The status that an action leaves: an unpacked version is not set up yet, a removal is complete. */
  function Left(p: Plan, a: Action): (Option<nat>, State)
    requires !a.GaveUp? && a.seat < p.net.seats
  {
    var version := p.version[p.sel[a.seat]];
    if a.Unpacking? && version.Some? then (version, Unpacked) else (version, Ok)
  }

  lemma {:induction false} StatusStays(p: Plan, init: Db, trace: seq<Action>, db: Db, s: Seat)
    requires Chain(p, init, trace, db) && s < p.net.seats
    requires !p.package[s] || forall i :: 0 <= i < |trace| ==> !On(trace[i], s)
    ensures StatusOf(db, s) == StatusOf(init, s)
    decreases |trace|
  {
    if trace != [] {
      var n := |trace| - 1;
      var a := trace[n];
      StatusStays(p, init, trace[..n], a.before, s);
      if !a.GaveUp? {
        ActionKeeps(p, a.before, a.seat);
      }
    }
  }

  /** The last action on a package decides its status; without one it is what it was. */
  lemma {:induction false} LastDecides(p: Plan, init: Db, trace: seq<Action>, db: Db, s: Seat, i: nat)
    requires Chain(p, init, trace, db) && s < p.net.seats && p.package[s]
    requires i < |trace| && On(trace[i], s) && forall j :: i < j < |trace| ==> !On(trace[j], s)
    ensures (StatusOf(db, s).version, StatusOf(db, s).state) == Left(p, trace[i])
    decreases |trace|
  {
    var n := |trace| - 1;
    var a := trace[n];
    if !a.GaveUp? {
      ActionKeeps(p, a.before, a.seat);
    }
    if i < n {
      LastDecides(p, init, trace[..n], a.before, s, i);
    }
  }

  /** What is recorded for the package of a candidate is its version, in one of some states; a package without
      record is not installed. Where there is no package the candidate is selected. */
  predicate Recorded(p: Plan, db: Db, c: Cand, states: set<State>)
    requires c < |p.net.seatOf|
  {
    var s := p.net.seatOf[c];
    if !p.package[s] then p.sel[s] == c
    else if s in db then db[s].version == p.version[c] && db[s].state in states
    else p.version[c] == None && Ok in states
  }

  lemma PresenceIs(p: Plan, db: Db, c: Cand)
    requires c < |p.net.seatOf|
    ensures IsInstalled(p, db, c) <==> Recorded(p, db, c, {Ok})
    ensures IsUnpacked(p, db, c) <==> Recorded(p, db, c, {Ok, Unpacked})
  {
    assert p.net.seatOf[c] < p.net.seats == |p.sel|;
  }

  /** A package is set up in the end only if it was from the start, or was installed, or removed. In
      particular unpacking is never enough. */
  lemma {:induction false} SetUpHow(p: Plan, init: Db, trace: seq<Action>, db: Db, s: Seat)
    requires Chain(p, init, trace, db) && s < p.net.seats && p.package[s]
    requires StatusOf(db, s).version == p.version[p.sel[s]] && StatusOf(db, s).state == Ok
    requires p.version[p.sel[s]].Some?
    ensures StatusOf(init, s) == StatusOf(db, s) ||
      exists i :: 0 <= i < |trace| && trace[i].Installed? && trace[i].seat == s
    decreases |trace|
  {
    if trace != [] {
      var n := |trace| - 1;
      var a := trace[n];
      if On(a, s) {
        ActionKeeps(p, a.before, a.seat);
      } else {
        if !a.GaveUp? {
          ActionKeeps(p, a.before, a.seat);
        }
        assert StatusOf(a.before, s) == StatusOf(db, s);
        SetUpHow(p, init, trace[..n], a.before, s);
        if StatusOf(init, s) != StatusOf(db, s) {
          var i :| 0 <= i < n && trace[..n][i].Installed? && trace[..n][i].seat == s;
          assert trace[i] == trace[..n][i];
        }
      }
    }
  }

  /** What is unpacked and no more is not taken for installed; a removal is. */
  lemma UnpackedIsNotInstalled(p: Plan, db: Db, s: Seat)
    requires s < p.net.seats && p.package[s]
    ensures IsInstalled(p, Unpack(p, db, p.sel[s]), p.sel[s]) <==> p.version[p.sel[s]].None?
    ensures IsUnpacked(p, Unpack(p, db, p.sel[s]), p.sel[s])
  {
    ActionKeeps(p, db, s);
  }

  /* Which deps count for what. */

  /** Some alternative of the dep is recorded in one of the states. */
  predicate Provided(p: Plan, db: Db, d: Dep, states: set<State>)
    requires ValidDep(p.net, d)
  {
    exists a :: a in d.alts && Recorded(p, db, a, states)
  }

  /** Is the dep met? A dependency needs an alternative that is set up; for a conflict or a break, and
      for what was derived from others, it is enough that it is unpacked. */
  predicate Met(p: Plan, db: Db, d: Dep)
    requires ValidDep(p.net, d)
  {
    match d.rel
    case Some(PreDepends) => Provided(p, db, d, {Ok})
    case Some(Depends) => Provided(p, db, d, {Ok})
    case Some(Recommends) => Provided(p, db, d, {Ok})
    case Some(Conflicts) => Provided(p, db, d, {Ok, Unpacked})
    case Some(Breaks) => Provided(p, db, d, {Ok, Unpacked})
    case None => Provided(p, db, d, {Ok, Unpacked})
    case _ => Provided(p, db, d, {Ok})
  }

  /** The deps that hold already before unpacking: pre-dependencies, conflicts, and what follows
      from the conflicts of others. */
  predicate BeforeUnpack(d: Dep) {
    d.rel == Some(PreDepends) || d.rel == Some(Conflicts) || (d.rel == None && d.reversedConflict)
  }

  /** The deps that may be broken for a while: breaks, and what follows from other deps of others. */
  predicate MayBreak(d: Dep) {
    d.rel == Some(Breaks) || (d.rel == None && d.reversed && !d.reversedConflict)
  }

  lemma MetIs(p: Plan, db: Db, done: set<Seat>, d: Dep)
    requires ValidDep(p.net, d)
    ensures Meets(ForInstall, p, db, done, d) <==> Met(p, db, d)
    ensures Meets(AllowBreaks, p, db, done, d) <==> MayBreak(d) || Met(p, db, d)
    ensures Meets(ForUnpack, p, db, done, d) <==> (BeforeUnpack(d) ==> Met(p, db, d))
    ensures Meets(UnpackIsEnough, p, db, done, d) <==> Provided(p, db, d, {Ok, Unpacked})
    ensures Meets(Optimistic, p, db, done, d) <==>
      Met(p, db, d) || exists a :: a in d.alts && p.sel[p.net.seatOf[a]] == a && p.net.seatOf[a] !in done
  {
    forall a | a in d.alts
      ensures IsInstalled(p, db, a) <==> Recorded(p, db, a, {Ok})
      ensures IsUnpacked(p, db, a) <==> Recorded(p, db, a, {Ok, Unpacked})
      ensures IsInstalled(p, db, a) ==> IsUnpacked(p, db, a)
      ensures IsSelected(p.net, p.sel, a) <==> p.sel[p.net.seatOf[a]] == a
    {
      PresenceIs(p, db, a);
    }
  }

  /* Why an action is taken. */

  /** No way to install a seat: it is not recorded as selected, and some of its deps, not only such as may
      break, are not met. */
  predicate NoWay(p: Plan, db: Db, s: Seat)
    requires s < p.net.seats
  {
    !Recorded(p, db, p.sel[s], {Ok}) && exists d :: d in p.net.deps[p.sel[s]] && !MayBreak(d) && !Met(p, db, d)
  }

  /** A dep that would not be met even if all the seats that are not done were installed as selected. */
  predicate Hopeless(p: Plan, db: Db, done: set<Seat>, d: Dep)
    requires ValidDep(p.net, d)
  {
    !Met(p, db, d) && forall a :: a in d.alts && p.sel[p.net.seatOf[a]] == a ==> p.net.seatOf[a] in done
  }

  /** Installing takes that all deps are met, or all but such as may break, or that each has an
      alternative that is unpacked at least. Unpacking takes that pre-dependencies and conflicts are
      met. Seats are given up when there is no way to install any; and some has a hopeless dep, or what is
      packed cannot be unpacked, and either nothing is unpacked or each has a dep without an alternative
      that is. */
  ghost predicate Allowed(p: Plan, a: Action) {
    match a
    case Installed(s, before) => s < p.net.seats &&
      var deps := p.net.deps[p.sel[s]];
      || (forall d :: d in deps ==> Met(p, before, d))
      || (forall d :: d in deps ==> MayBreak(d) || Met(p, before, d))
      || (forall d :: d in deps ==> Provided(p, before, d, {Ok, Unpacked}))
    case Unpacking(s, before) =>
      && s < p.net.seats && !Recorded(p, before, p.sel[s], {Ok, Unpacked})
      && forall d :: d in p.net.deps[p.sel[s]] && BeforeUnpack(d) ==> Met(p, before, d)
    case GaveUp(seats, done, before) =>
      && (forall s :: s in seats ==> s < p.net.seats && NoWay(p, before, s))
      && ((exists s, d :: s in seats && d in p.net.deps[p.sel[s]] && Hopeless(p, before, done, d))
          || (&& (forall s :: s in seats ==> StaysPacked(p, before, s))
              && ((forall s :: s in seats ==> !Recorded(p, before, p.sel[s], {Ok, Unpacked}))
                  || forall s :: s in seats ==> LacksUnpacked(p, before, s))))
  }

  predicate StaysPacked(p: Plan, db: Db, s: Seat)
    requires s < p.net.seats
  {
    Recorded(p, db, p.sel[s], {Ok, Unpacked}) ||
    exists d :: d in p.net.deps[p.sel[s]] && BeforeUnpack(d) && !Met(p, db, d)
  }

  predicate LacksUnpacked(p: Plan, db: Db, s: Seat)
    requires s < p.net.seats
  {
    exists d :: d in p.net.deps[p.sel[s]] && !Provided(p, db, d, {Ok, Unpacked})
  }

  lemma NeedsMean(p: Plan, db: Db, done: set<Seat>, s: Seat)
    requires s < p.net.seats
    ensures var deps := p.net.deps[p.sel[s]];
      && (AllMeet(ForInstall, p, db, done, s) <==> forall d :: d in deps ==> Met(p, db, d))
      && (AllMeet(AllowBreaks, p, db, done, s) <==> forall d :: d in deps ==> MayBreak(d) || Met(p, db, d))
      && (AllMeet(ForUnpack, p, db, done, s) <==> forall d :: d in deps && BeforeUnpack(d) ==> Met(p, db, d))
      && (AllMeet(UnpackIsEnough, p, db, done, s) <==> !LacksUnpacked(p, db, s))
      && (AllMeet(Optimistic, p, db, done, s) <==> forall d :: d in deps ==> !Hopeless(p, db, done, d))
    ensures IsInstalled(p, db, p.sel[s]) <==> Recorded(p, db, p.sel[s], {Ok})
    ensures IsUnpacked(p, db, p.sel[s]) <==> Recorded(p, db, p.sel[s], {Ok, Unpacked})
  {
    hide Meets, Met, MayBreak, BeforeUnpack, Provided, Recorded;
    PresenceIs(p, db, p.sel[s]);
    forall d | d in p.net.deps[p.sel[s]]
      ensures Meets(ForInstall, p, db, done, d) <==> Met(p, db, d)
      ensures Meets(AllowBreaks, p, db, done, d) <==> MayBreak(d) || Met(p, db, d)
      ensures Meets(ForUnpack, p, db, done, d) <==> (BeforeUnpack(d) ==> Met(p, db, d))
      ensures Meets(UnpackIsEnough, p, db, done, d) <==> Provided(p, db, d, {Ok, Unpacked})
      ensures Meets(Optimistic, p, db, done, d) <==> !Hopeless(p, db, done, d)
    {
      MetIs(p, db, done, d);
    }
  }

  /** An action is justified exactly when it is allowed. */
  lemma JustifiedMeans(p: Plan, a: Action)
    ensures Justified(p, a) <==> Allowed(p, a)
  {
    hide AllMeet, Met, Provided, Recorded, MayBreak, BeforeUnpack, LacksUnpacked, Hopeless, IsInstalled, IsUnpacked;
    match a
    case Installed(s, before) =>
      if s < p.net.seats {
        NeedsMean(p, before, {}, s);
        EnoughMeans(p, before, s);
      }
    case Unpacking(s, before) =>
      if s < p.net.seats {
        NeedsMean(p, before, {}, s);
      }
    case GaveUp(seats, done, before) =>
      InPlanIs(p, seats);
      if InPlan(p, seats) {
        StuckMeans(p, before, done, seats);
      }
  }

  lemma InPlanIs(p: Plan, seats: seq<Seat>)
    ensures InPlan(p, seats) <==> forall s :: s in seats ==> s < p.net.seats
  {
    assert forall i :: 0 <= i < |seats| ==> seats[i] in seats;
  }

  lemma EnoughMeans(p: Plan, db: Db, s: Seat)
    requires s < p.net.seats
    ensures !LacksUnpacked(p, db, s) <==>
      forall d :: d in p.net.deps[p.sel[s]] ==> Provided(p, db, d, {Ok, Unpacked})
  {
  }

  lemma StuckMeans(p: Plan, db: Db, done: set<Seat>, seats: seq<Seat>)
    requires InPlan(p, seats)
    ensures Stuck(p, db, done, seats) <==> Allowed(p, GaveUp(seats, done, db))
  {
    hide AllMeet, Met, Provided, Recorded, MayBreak, BeforeUnpack, LacksUnpacked, Hopeless, IsInstalled, IsUnpacked;
    forall s | s in seats
      ensures Blocked(p, db, done, s) <==> NoWay(p, db, s)
      ensures IsUnpacked(p, db, p.sel[s]) || !AllMeet(ForUnpack, p, db, done, s) <==> StaysPacked(p, db, s)
      ensures IsUnpacked(p, db, p.sel[s]) <==> Recorded(p, db, p.sel[s], {Ok, Unpacked})
      ensures AllMeet(UnpackIsEnough, p, db, done, s) <==> !LacksUnpacked(p, db, s)
      ensures AllMeet(Optimistic, p, db, done, s) <==>
        forall d :: d in p.net.deps[p.sel[s]] ==> !Hopeless(p, db, done, d)
    {
      NeedsMean(p, db, done, s);
    }
  }

  /** Over any chain every action was allowed where it was taken. */
  lemma ChainAllowed(p: Plan, init: Db, trace: seq<Action>, db: Db, i: nat)
    requires Chain(p, init, trace, db) && i < |trace|
    ensures Allowed(p, trace[i])
  {
    ChainJustified(p, init, trace, db, i);
    JustifiedMeans(p, trace[i]);
  }
}
