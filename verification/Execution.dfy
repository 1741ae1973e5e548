/** Carrying out a plan: the component walk installs, removes and unpacks
    candidates until the package database agrees with the selection. */
module Execution {
  import opened Basics
  import opened Graphs
  import opened Network
  import opened Ordering

  /* The package database. */

  datatype State = Ok | Unpacked

  datatype Status = Status(version: Option<nat>, state: State, flags: int)

  /** The recorded status of packages, by the id of their seat. */
  type Db = map<Seat, Status>

  function StatusOf(db: Db, s: Seat): Status {
    if s in db then db[s] else Status(None, Ok, 0)
  }

  function SetStatus(db: Db, s: Seat, version: Option<nat>, state: State): Db {
    var was := StatusOf(db, s);
    if version != was.version || state != was.state then db[s := Status(version, state, was.flags)] else db
  }

  lemma SetStatusReads(db: Db, s: Seat, version: Option<nat>, state: State)
    ensures StatusOf(SetStatus(db, s, version, state), s) == Status(version, state, StatusOf(db, s).flags)
    ensures forall r :: r != s ==> StatusOf(SetStatus(db, s, version, state), r) == StatusOf(db, r)
  {
  }

  /* Plans. */

  /** What is to be installed: a network, a selection, the version of every
      candidate (none for null candidates) and which seats belong to packages. */
  datatype RawPlan = Plan(net: Net, sel: Selection, version: seq<Option<nat>>, package: seq<bool>)

  /** Candidates of one package seat with the same version: never two of them. */
  predicate Rivals(p: RawPlan, a: nat, b: nat)
    requires |p.version| == |p.net.seatOf| && a < |p.version| && b < |p.version|
  {
    var s := p.net.seatOf[a];
    s == p.net.seatOf[b] && s < |p.package| && p.package[s] && p.version[a] == p.version[b]
  }

  predicate ValidPlan(p: RawPlan) {
    && ValidNet(p.net) && ValidSelection(p.net, p.sel)
    && |p.version| == |p.net.seatOf| && |p.package| == p.net.seats
    && forall a, b :: 0 <= a < |p.version| && 0 <= b < |p.version| && Rivals(p, a, b) ==> a == b
  }

  type Plan = p: RawPlan | ValidPlan(p) witness Plan(Net(0, [], []), [], [], [])

  /** Both states there are count as unpacked. */
  predicate IsUnpacked(p: Plan, db: Db, c: Cand)
    requires c < |p.net.seatOf|
  {
    var s := p.net.seatOf[c];
    if !p.package[s] then IsSelected(p.net, p.sel, c)
    else p.version[c] == StatusOf(db, s).version
  }

  predicate IsInstalled(p: Plan, db: Db, c: Cand)
    requires c < |p.net.seatOf|
  {
    var s := p.net.seatOf[c];
    if !p.package[s] then IsSelected(p.net, p.sel, c)
    else p.version[c] == StatusOf(db, s).version && StatusOf(db, s).state == Ok
  }

  function Install(p: Plan, db: Db, c: Cand): Db
    requires c < |p.net.seatOf|
  {
    var s := p.net.seatOf[c];
    if p.package[s] then SetStatus(db, s, p.version[c], Ok) else db
  }

  /** A removal is complete at once: there is nothing to unpack. */
  function Unpack(p: Plan, db: Db, c: Cand): Db
    requires c < |p.net.seatOf|
  {
    var s := p.net.seatOf[c];
    if p.package[s] then SetStatus(db, s, p.version[c], if p.version[c].Some? then Unpacked else Ok) else db
  }

  /* Kinds of deps. A dep that was derived in reverse has no relation of its own.
     The relation types `Provides` and `Replaces` are never compiled into deps. */

  predicate SatisfiedByUnpacked(d: Dep) {
    match d.rel
    case None => true
    case Some(r) => r.Conflicts? || r.Breaks?
  }

  predicate MustHoldForUnpack(d: Dep) {
    match d.rel
    case None => d.reversedConflict
    case Some(r) => r.PreDepends? || r.Conflicts?
  }

  predicate RequiredByTarget(d: Dep) {
    match d.rel
    case None => d.reversed && !d.reversedConflict
    case Some(r) => r.Breaks?
  }

  /** The conditions that are tried on the deps of a candidate. */
  datatype Need = ForInstall | AllowBreaks | ForUnpack | UnpackIsEnough | Optimistic

  predicate SatisfiedBy(p: Plan, db: Db, d: Dep, c: Cand)
    requires c < |p.net.seatOf|
  {
    IsInstalled(p, db, c) || (SatisfiedByUnpacked(d) && IsUnpacked(p, db, c))
  }

  /** Seats that are not done yet are assumed to get fully installed. */
  predicate HopedFor(p: Plan, db: Db, done: set<Seat>, d: Dep, c: Cand)
    requires c < |p.net.seatOf|
  {
    (IsSelected(p.net, p.sel, c) && SeatOf(p.net, c) !in done) || SatisfiedBy(p, db, d, c)
  }

  predicate SomeSatisfies(p: Plan, db: Db, d: Dep)
    requires ValidDep(p.net, d)
  {
    exists a :: a in d.alts && SatisfiedBy(p, db, d, a)
  }

  predicate Meets(need: Need, p: Plan, db: Db, done: set<Seat>, d: Dep)
    requires ValidDep(p.net, d)
  {
    match need
    case ForInstall => SomeSatisfies(p, db, d)
    case AllowBreaks => RequiredByTarget(d) || SomeSatisfies(p, db, d)
    case ForUnpack => !MustHoldForUnpack(d) || SomeSatisfies(p, db, d)
    case UnpackIsEnough => exists a :: a in d.alts && IsUnpacked(p, db, a)
    case Optimistic => exists a :: a in d.alts && HopedFor(p, db, done, d, a)
  }

  predicate AllMeet(need: Need, p: Plan, db: Db, done: set<Seat>, s: Seat)
    requires s < p.net.seats
  {
    forall d :: d in p.net.deps[p.sel[s]] ==> Meets(need, p, db, done, d)
  }

  /* The steps of an execution, with the database each one found. */

  datatype Action =
    | Installed(seat: Seat, before: Db)
    | Unpacking(seat: Seat, before: Db)
    | GaveUp(seats: seq<Seat>, done: set<Seat>, before: Db)

  datatype Exec = Exec(db: Db, trace: seq<Action>)

  function DoInstall(p: Plan, x: Exec, s: Seat): Exec
    requires s < p.net.seats
  {
    Exec(Install(p, x.db, p.sel[s]), x.trace + [Installed(s, x.db)])
  }

  function DoUnpack(p: Plan, x: Exec, s: Seat): Exec
    requires s < p.net.seats
  {
    Exec(Unpack(p, x.db, p.sel[s]), x.trace + [Unpacking(s, x.db)])
  }

  function GiveUp(x: Exec, done: set<Seat>, seats: seq<Seat>): (Exec, set<Seat>) {
    (Exec(x.db, x.trace + [GaveUp(seats, done, x.db)]), Elems(seats))
  }

  /* What the callback computes. */

  predicate InPlan(p: Plan, seats: seq<Seat>) {
    forall i :: 0 <= i < |seats| ==> seats[i] < p.net.seats
  }

  function AlreadyInstalled(p: Plan, db: Db, seats: seq<Seat>): set<Seat>
    requires InPlan(p, seats)
  {
    set s | s in seats && IsInstalled(p, db, p.sel[s])
  }

  /** Install those of the first `n` seats whose deps all meet `need`. */
  function InstallSatisfied(p: Plan, x: Exec, need: Need, done: set<Seat>, seats: seq<Seat>, n: nat): (Exec, set<Seat>)
    requires InPlan(p, seats) && n <= |seats|
  {
    if n == 0 then (x, {})
    else
      var (x1, marked) := InstallSatisfied(p, x, need, done, seats, n - 1);
      var s := seats[n - 1];
      if AllMeet(need, p, x1.db, done, s) then (DoInstall(p, x1, s), marked + {s}) else (x1, marked)
  }

  function InstallSome(p: Plan, x: Exec, done: set<Seat>, seats: seq<Seat>): (Exec, set<Seat>)
    requires InPlan(p, seats)
  {
    var ready := AlreadyInstalled(p, x.db, seats);
    if ready != {} then (x, ready)
    else
      var (x1, m1) := InstallSatisfied(p, x, ForInstall, done, seats, |seats|);
      if m1 != {} then (x1, m1)
      else InstallSatisfied(p, x1, AllowBreaks, done, seats, |seats|)
  }

  /** One pass over the first `n` seats: unpack what can be unpacked. Also tells
      whether something was unpacked, and whether something was found unpacked. */
  function UnpackPass(p: Plan, x: Exec, done: set<Seat>, seats: seq<Seat>, n: nat): (Exec, bool, bool)
    requires InPlan(p, seats) && n <= |seats|
  {
    if n == 0 then (x, false, false)
    else
      var (x1, progress, found) := UnpackPass(p, x, done, seats, n - 1);
      var s := seats[n - 1];
      if IsUnpacked(p, x1.db, p.sel[s]) then (x1, progress, true)
      else if AllMeet(ForUnpack, p, x1.db, done, s) then (DoUnpack(p, x1, s), true, found)
      else (x1, progress, found)
  }

  function Packed(p: Plan, db: Db, seats: seq<Seat>): set<Seat>
    requires InPlan(p, seats)
  {
    set s | s in seats && !IsUnpacked(p, db, p.sel[s])
  }

  lemma ActionKeeps(p: Plan, db: Db, s: Seat)
    requires s < p.net.seats
    ensures forall r :: r != s ==> StatusOf(Install(p, db, p.sel[s]), r) == StatusOf(db, r)
    ensures forall r :: r != s ==> StatusOf(Unpack(p, db, p.sel[s]), r) == StatusOf(db, r)
    ensures IsInstalled(p, Install(p, db, p.sel[s]), p.sel[s])
    ensures IsUnpacked(p, Unpack(p, db, p.sel[s]), p.sel[s])
    ensures StatusOf(Install(p, db, p.sel[s]), s).flags == StatusOf(db, s).flags
    ensures StatusOf(Unpack(p, db, p.sel[s]), s).flags == StatusOf(db, s).flags
    ensures p.package[s] ==>
      && StatusOf(Install(p, db, p.sel[s]), s) == Status(p.version[p.sel[s]], Ok, StatusOf(db, s).flags)
      && StatusOf(Unpack(p, db, p.sel[s]), s) ==
         Status(p.version[p.sel[s]], if p.version[p.sel[s]].Some? then Unpacked else Ok, StatusOf(db, s).flags)
    ensures !p.package[s] ==> Install(p, db, p.sel[s]) == db && Unpack(p, db, p.sel[s]) == db
  {
  }

  lemma {:induction false} PassProgress(p: Plan, x: Exec, done: set<Seat>, seats: seq<Seat>, n: nat)
    requires InPlan(p, seats) && n <= |seats|
    ensures var (x1, progress, found) := UnpackPass(p, x, done, seats, n);
      && Packed(p, x1.db, seats) <= Packed(p, x.db, seats)
      && (progress ==> Packed(p, x1.db, seats) < Packed(p, x.db, seats))
  {
    if n > 0 {
      PassProgress(p, x, done, seats, n - 1);
      var (x1, progress, found) := UnpackPass(p, x, done, seats, n - 1);
      var s := seats[n - 1];
      ActionKeeps(p, x1.db, s);
      if !IsUnpacked(p, x1.db, p.sel[s]) {
        assert s in Packed(p, x1.db, seats) && s !in Packed(p, Unpack(p, x1.db, p.sel[s]), seats);
      }
    }
  }

  /** Repeat until a pass makes no progress. Every pass that does leaves fewer
      seats packed. */
  function UnpackAll(p: Plan, x: Exec, done: set<Seat>, seats: seq<Seat>, found: bool): (Exec, bool)
    requires InPlan(p, seats)
    decreases Packed(p, x.db, seats)
  {
    var (x1, progress, found1) := UnpackPass(p, x, done, seats, |seats|);
    PassProgress(p, x, done, seats, |seats|);
    if progress then UnpackAll(p, x1, done, seats, found || found1) else (x1, found || found1)
  }

  /** Install the first seat from `i` on for which unpacked alternatives are enough. */
  function TryEach(p: Plan, x: Exec, done: set<Seat>, seats: seq<Seat>, i: nat): (Exec, set<Seat>)
    requires InPlan(p, seats) && i <= |seats|
    decreases |seats| - i
  {
    if i == |seats| then GiveUp(x, done, seats)
    else if AllMeet(UnpackIsEnough, p, x.db, done, seats[i]) then (DoInstall(p, x, seats[i]), {seats[i]})
    else TryEach(p, x, done, seats, i + 1)
  }

  function HandleComponent(p: Plan, x: Exec, done: set<Seat>, seats: seq<Seat>): (Exec, set<Seat>)
    requires InPlan(p, seats)
  {
    var (x1, m1) := InstallSome(p, x, done, seats);
    if m1 != {} then (x1, m1)
    else if exists s :: s in seats && !AllMeet(Optimistic, p, x1.db, done, s) then GiveUp(x1, done, seats)
    else
      var (x2, found) := UnpackAll(p, x1, done, seats, false);
      if !found then GiveUp(x2, done, seats)
      else
        var (x3, m3) := InstallSome(p, x2, done, seats);
        if m3 != {} then (x3, m3) else TryEach(p, x3, done, seats, 0)
  }

  /** As a callback of the walk, which only ever passes seats of the plan. */
  function Handling(p: Plan): Visitor<Exec> {
    (x: Exec, done: set<Seat>, seats: seq<Seat>) =>
      if InPlan(p, seats) then HandleComponent(p, x, done, seats) else (x, Elems(seats))
  }

  /* The callback itself. */

  method CheckDeps(need: Need, p: Plan, db: Db, done: set<Seat>, s: Seat) returns (all: bool)
    requires s < p.net.seats
    ensures all == AllMeet(need, p, db, done, s)
  {
    var deps := p.net.deps[p.sel[s]];
    for i := 0 to |deps|
      invariant forall d :: d in deps[..i] ==> Meets(need, p, db, done, d)
    {
      assert deps[..i + 1] == deps[..i] + [deps[i]];
      if !Meets(need, p, db, done, deps[i]) {
        return false;
      }
    }
    assert deps[..|deps|] == deps;
    return true;
  }

  /** The state the callback works on. */
  class Handler {
    const p: Plan
    const done: set<Seat>
    const seats: seq<Seat>
    var x: Exec
    var marked: set<Seat>

    constructor (p: Plan, x: Exec, done: set<Seat>, seats: seq<Seat>)
      ensures this.p == p && this.x == x && this.done == done && this.seats == seats && marked == {}
    {
      this.p, this.x, this.done, this.seats := p, x, done, seats;
      marked := {};
    }

    method TryInstall(need: Need) returns (someDone: bool)
      requires InPlan(p, seats) && marked == {}
      modifies this
      ensures (x, marked) == InstallSatisfied(p, old(x), need, done, seats, |seats|)
      ensures someDone <==> marked != {}
    {
      someDone := false;
      for i := 0 to |seats|
        invariant (x, marked) == InstallSatisfied(p, old(x), need, done, seats, i)
        invariant someDone <==> marked != {}
      {
        var all := CheckDeps(need, p, x.db, done, seats[i]);
        if all {
          x := DoInstall(p, x, seats[i]);
          marked := marked + {seats[i]};
          someDone := true;
        }
      }
    }

    method TryInstallSome() returns (someDone: bool)
      requires InPlan(p, seats) && marked == {}
      modifies this
      ensures (x, marked) == InstallSome(p, old(x), done, seats)
      ensures someDone <==> marked != {}
    {
      someDone := false;
      for i := 0 to |seats|
        invariant x == old(x) && marked == AlreadyInstalled(p, x.db, seats[..i])
        invariant someDone <==> marked != {}
      {
        assert seats[..i + 1] == seats[..i] + [seats[i]];
        if IsInstalled(p, x.db, p.sel[seats[i]]) {
          marked := marked + {seats[i]};
          someDone := true;
        }
      }
      assert seats[..|seats|] == seats;
      if !someDone {
        someDone := TryInstall(ForInstall);
        if !someDone {
          someDone := TryInstall(AllowBreaks);
        }
      }
    }

    method TryUnpack() returns (found: bool)
      requires InPlan(p, seats)
      modifies this`x
      ensures (x, found) == UnpackAll(p, old(x), done, seats, false)
    {
      found := false;
      var madeProgress := true;
      while madeProgress
        invariant UnpackAll(p, old(x), done, seats, false) ==
          if madeProgress then UnpackAll(p, x, done, seats, found) else (x, found)
        decreases madeProgress, Packed(p, x.db, seats)
      {
        ghost var x0, found0 := x, found;
        madeProgress := false;
        for i := 0 to |seats|
          invariant (x, madeProgress, found) ==
            (var (x1, progress, found1) := UnpackPass(p, x0, done, seats, i); (x1, progress, found0 || found1))
        {
          var c := p.sel[seats[i]];
          if !IsUnpacked(p, x.db, c) {
            var all := CheckDeps(ForUnpack, p, x.db, done, seats[i]);
            if all {
              x := DoUnpack(p, x, seats[i]);
              madeProgress := true;
            }
          } else {
            found := true;
          }
        }
        PassProgress(p, x0, done, seats, |seats|);
      }
    }

    method Handle()
      requires InPlan(p, seats) && marked == {}
      modifies this
      ensures (x, marked) == HandleComponent(p, old(x), done, seats)
    {
      var some := TryInstallSome();
      if some {
        return;
      }
      for i := 0 to |seats|
        invariant x == InstallSome(p, old(x), done, seats).0 && marked == {}
        invariant forall s :: s in seats[..i] ==> AllMeet(Optimistic, p, x.db, done, s)
      {
        assert seats[..i + 1] == seats[..i] + [seats[i]];
        var all := CheckDeps(Optimistic, p, x.db, done, seats[i]);
        if !all {
          assert seats[i] in seats;
          x := GiveUp(x, done, seats).0;
          marked := Elems(seats);
          return;
        }
      }
      assert seats[..|seats|] == seats;
      var found := TryUnpack();
      if found {
        some := TryInstallSome();
        if some {
          return;
        }
        ghost var x3 := x;
        for i := 0 to |seats|
          invariant x == x3 && marked == {}
          invariant TryEach(p, x3, done, seats, 0) == TryEach(p, x3, done, seats, i)
        {
          var all := CheckDeps(UnpackIsEnough, p, x.db, done, seats[i]);
          if all {
            x := DoInstall(p, x, seats[i]);
            marked := {seats[i]};
            return;
          }
        }
      }
      x := GiveUp(x, done, seats).0;
      marked := Elems(seats);
    }
  }

  /* What holds of every execution. */

  function Effect(p: Plan, a: Action): Db
    requires a.GaveUp? || a.seat < p.net.seats
  {
    match a
    case Installed(s, before) => Install(p, before, p.sel[s])
    case Unpacking(s, before) => Unpack(p, before, p.sel[s])
    case GaveUp(_, _, before) => before
  }

  /** Nothing to do for the seat, and no way to install it without breaking its own deps. */
  predicate Blocked(p: Plan, db: Db, done: set<Seat>, s: Seat)
    requires s < p.net.seats
  {
    && !IsInstalled(p, db, p.sel[s])
    && !AllMeet(ForInstall, p, db, done, s) && !AllMeet(AllowBreaks, p, db, done, s)
  }

  /** What can be unpacked is unpacked, but it does not help: either that is nothing at
      all, or every seat has a dep that not even the unpacked candidates satisfy. */
  predicate Drained(p: Plan, db: Db, done: set<Seat>, seats: seq<Seat>)
    requires InPlan(p, seats)
  {
    && (forall s :: s in seats ==> IsUnpacked(p, db, p.sel[s]) || !AllMeet(ForUnpack, p, db, done, s))
    && ((forall s :: s in seats ==> !IsUnpacked(p, db, p.sel[s]))
        || forall s :: s in seats ==> !AllMeet(UnpackIsEnough, p, db, done, s))
  }

  predicate Hopeful(p: Plan, db: Db, done: set<Seat>, seats: seq<Seat>)
    requires InPlan(p, seats)
  {
    forall s :: s in seats ==> AllMeet(Optimistic, p, db, done, s)
  }

  /** No step is left: all seats are blocked, and some of them would be even if the
      others were installed, or unpacking does not help. */
  predicate Stuck(p: Plan, db: Db, done: set<Seat>, seats: seq<Seat>)
    requires InPlan(p, seats)
  {
    && (forall s :: s in seats ==> Blocked(p, db, done, s))
    && (!Hopeful(p, db, done, seats) || Drained(p, db, done, seats))
  }

  /** Why an action was allowed: nothing is unpacked before its pre-dependencies
      and conflicts are settled; nothing is installed unless all its deps hold,
      or only others break, or every dep has an alternative that is at least unpacked;
      and no seats are given up unless they are stuck. */
  ghost predicate Justified(p: Plan, a: Action) {
    match a
    case Installed(s, before) => s < p.net.seats &&
      (AllMeet(ForInstall, p, before, {}, s) || AllMeet(AllowBreaks, p, before, {}, s)
       || AllMeet(UnpackIsEnough, p, before, {}, s))
    case Unpacking(s, before) =>
      s < p.net.seats && AllMeet(ForUnpack, p, before, {}, s) && !IsUnpacked(p, before, p.sel[s])
    case GaveUp(seats, done, before) => InPlan(p, seats) && Stuck(p, before, done, seats)
  }

  /** The trace leads from one database to another, each action justified where it happened. */
  ghost predicate Chain(p: Plan, init: Db, trace: seq<Action>, db: Db)
    decreases |trace|
  {
    if trace == [] then db == init
    else
      var a := trace[|trace| - 1];
      Chain(p, init, trace[..|trace| - 1], a.before) && Justified(p, a) && db == Effect(p, a)
  }

  ghost predicate Settled(p: Plan, x: Exec, s: Seat) {
    s < p.net.seats &&
    (IsInstalled(p, x.db, p.sel[s]) || exists i :: 0 <= i < |x.trace| && x.trace[i].GaveUp? && s in x.trace[i].seats)
  }

  /** Selected candidates that are installed stay so, and the trace grows by other actions than giving up. */
  ghost predicate Progress(p: Plan, init: Db, x: Exec, x': Exec) {
    && (Chain(p, init, x.trace, x.db) ==> Chain(p, init, x'.trace, x'.db))
    && x.trace <= x'.trace && (forall i :: |x.trace| <= i < |x'.trace| ==> !x'.trace[i].GaveUp?)
    && forall s :: 0 <= s < p.net.seats && IsInstalled(p, x.db, p.sel[s]) ==> IsInstalled(p, x'.db, p.sel[s])
  }

  lemma ProgressTrans(p: Plan, init: Db, x: Exec, x1: Exec, x2: Exec)
    requires Progress(p, init, x, x1) && Progress(p, init, x1, x2)
    ensures Progress(p, init, x, x2)
  {
  }

  lemma SettledStays(p: Plan, init: Db, x: Exec, x': Exec, s: Seat)
    requires Settled(p, x, s) && Progress(p, init, x, x')
    ensures Settled(p, x', s)
  {
    if !IsInstalled(p, x.db, p.sel[s]) {
      var i :| 0 <= i < |x.trace| && x.trace[i].GaveUp? && s in x.trace[i].seats;
      assert x'.trace[i] == x.trace[i];
    }
  }

  lemma ChainStep(p: Plan, init: Db, x: Exec, a: Action)
    requires Chain(p, init, x.trace, x.db) && a.before == x.db && Justified(p, a)
    ensures Chain(p, init, x.trace + [a], Effect(p, a))
  {
    assert (x.trace + [a])[..|x.trace|] == x.trace;
  }

  lemma InstallProgress(p: Plan, init: Db, x: Exec, s: Seat)
    requires s < p.net.seats && Justified(p, Installed(s, x.db))
    ensures Progress(p, init, x, DoInstall(p, x, s)) && Settled(p, DoInstall(p, x, s), s)
  {
    ActionKeeps(p, x.db, s);
    if Chain(p, init, x.trace, x.db) {
      ChainStep(p, init, x, Installed(s, x.db));
    }
  }

  lemma UnpackProgress(p: Plan, init: Db, x: Exec, s: Seat)
    requires s < p.net.seats && Justified(p, Unpacking(s, x.db))
    ensures Progress(p, init, x, DoUnpack(p, x, s))
  {
    ActionKeeps(p, x.db, s);
    if Chain(p, init, x.trace, x.db) {
      ChainStep(p, init, x, Unpacking(s, x.db));
    }
  }

  /** The outcome of a call for some seats: progress, which ends with giving the seats up
      if they are stuck. */
  ghost predicate Handled(p: Plan, init: Db, x: Exec, r: (Exec, set<Seat>), done: set<Seat>, seats: seq<Seat>)
    requires InPlan(p, seats)
  {
    || Progress(p, init, x, r.0)
    || exists y :: Progress(p, init, x, y) && Stuck(p, y.db, done, seats) && r == GiveUp(y, done, seats)
  }

  lemma HandledKeeps(p: Plan, init: Db, x: Exec, r: (Exec, set<Seat>), done: set<Seat>, seats: seq<Seat>)
    requires InPlan(p, seats) && Handled(p, init, x, r, done, seats)
    ensures Chain(p, init, x.trace, x.db) ==> Chain(p, init, r.0.trace, r.0.db)
    ensures forall s :: Settled(p, x, s) ==> Settled(p, r.0, s)
  {
    var x' := r.0;
    if Progress(p, init, x, x') {
      forall s | Settled(p, x, s) ensures Settled(p, x', s) {
        SettledStays(p, init, x, x', s);
      }
    } else {
      var y :| Progress(p, init, x, y) && Stuck(p, y.db, done, seats) && r == GiveUp(y, done, seats);
      if Chain(p, init, x.trace, x.db) {
        ChainStep(p, init, y, GaveUp(seats, done, y.db));
      }
      forall s | Settled(p, x, s) ensures Settled(p, x', s) {
        SettledStays(p, init, x, y, s);
        GiveUpKeeps(p, y, done, seats, s);
      }
    }
  }

  lemma GiveUpKeeps(p: Plan, x: Exec, done: set<Seat>, seats: seq<Seat>, s: Seat)
    requires InPlan(p, seats) && (s in seats || Settled(p, x, s))
    ensures Settled(p, GiveUp(x, done, seats).0, s)
  {
    var x' := GiveUp(x, done, seats).0;
    if s in seats {
      assert x'.trace[|x.trace|] == GaveUp(seats, done, x.db);
    } else if !IsInstalled(p, x.db, p.sel[s]) {
      var i :| 0 <= i < |x.trace| && x.trace[i].GaveUp? && s in x.trace[i].seats;
      assert x'.trace[i] == x.trace[i];
    }
  }

  lemma GiveUpHandled(p: Plan, init: Db, x: Exec, y: Exec, done: set<Seat>, seats: seq<Seat>)
    requires InPlan(p, seats) && Progress(p, init, x, y) && Stuck(p, y.db, done, seats)
    ensures var (x', marked) := GiveUp(y, done, seats);
      Handled(p, init, x, (x', marked), done, seats) && forall s :: s in marked ==> Settled(p, x', s)
  {
    forall s | s in seats ensures Settled(p, GiveUp(y, done, seats).0, s) {
      GiveUpKeeps(p, y, done, seats, s);
    }
  }

  /** The condition of an install or unpack step does not depend on what is done. */
  lemma DoneIrrelevant(need: Need, p: Plan, db: Db, done: set<Seat>, s: Seat)
    requires s < p.net.seats && need != Optimistic
    ensures AllMeet(need, p, db, done, s) == AllMeet(need, p, db, {}, s)
  {
    assert forall d :: d in p.net.deps[p.sel[s]] ==> (Meets(need, p, db, done, d) <==> Meets(need, p, db, {}, d));
  }

  lemma {:induction false} SatisfiedProgress(p: Plan, init: Db, x: Exec, need: Need, done: set<Seat>,
                                             seats: seq<Seat>, n: nat)
    requires InPlan(p, seats) && n <= |seats| && (need == ForInstall || need == AllowBreaks)
    ensures var (x', marked) := InstallSatisfied(p, x, need, done, seats, n);
      && Progress(p, init, x, x') && marked <= Elems(seats[..n])
      && forall s :: s in marked ==> Settled(p, x', s)
  {
    hide Settled, AllMeet, IsInstalled, Chain;
    if n > 0 {
      SatisfiedProgress(p, init, x, need, done, seats, n - 1);
      var (x1, marked) := InstallSatisfied(p, x, need, done, seats, n - 1);
      var s := seats[n - 1];
      assert seats[..n] == seats[..n - 1] + [s];
      if AllMeet(need, p, x1.db, done, s) {
        DoneIrrelevant(need, p, x1.db, done, s);
        InstallProgress(p, init, x1, s);
        ProgressTrans(p, init, x, x1, DoInstall(p, x1, s));
        forall r | r in marked ensures Settled(p, DoInstall(p, x1, s), r) {
          SettledStays(p, init, x1, DoInstall(p, x1, s), r);
        }
      }
    }
  }

  lemma {:induction false} NothingSatisfied(p: Plan, x: Exec, need: Need, done: set<Seat>, seats: seq<Seat>, n: nat)
    requires InPlan(p, seats) && n <= |seats| && InstallSatisfied(p, x, need, done, seats, n).1 == {}
    ensures InstallSatisfied(p, x, need, done, seats, n).0 == x
    ensures forall s :: s in seats[..n] ==> !AllMeet(need, p, x.db, done, s)
  {
    hide AllMeet;
    if n > 0 {
      var s := seats[n - 1];
      assert seats[..n] == seats[..n - 1] + [s];
      var (x1, marked) := InstallSatisfied(p, x, need, done, seats, n - 1);
      assert s in marked + {s};
      NothingSatisfied(p, x, need, done, seats, n - 1);
    }
  }

  lemma SomeProgress(p: Plan, init: Db, x: Exec, done: set<Seat>, seats: seq<Seat>)
    requires InPlan(p, seats)
    ensures var (x', marked) := InstallSome(p, x, done, seats);
      && Progress(p, init, x, x') && marked <= Elems(seats)
      && forall s :: s in marked ==> Settled(p, x', s)
  {
    hide AllMeet, IsInstalled, Chain, InstallSatisfied;
    assert seats[..|seats|] == seats;
    assert Progress(p, init, x, x);
    var ready := AlreadyInstalled(p, x.db, seats);
    if ready == {} {
      SatisfiedProgress(p, init, x, ForInstall, done, seats, |seats|);
      if InstallSatisfied(p, x, ForInstall, done, seats, |seats|).1 == {} {
        NothingSatisfied(p, x, ForInstall, done, seats, |seats|);
        SatisfiedProgress(p, init, x, AllowBreaks, done, seats, |seats|);
      }
    }
  }

  lemma NothingInstalled(p: Plan, x: Exec, done: set<Seat>, seats: seq<Seat>)
    requires InPlan(p, seats) && InstallSome(p, x, done, seats).1 == {}
    ensures InstallSome(p, x, done, seats).0 == x && forall s :: s in seats ==> Blocked(p, x.db, done, s)
  {
    hide AllMeet, IsInstalled, InstallSatisfied;
    NothingSatisfied(p, x, ForInstall, done, seats, |seats|);
    NothingSatisfied(p, x, AllowBreaks, done, seats, |seats|);
    assert seats[..|seats|] == seats;
    forall s | s in seats ensures Blocked(p, x.db, done, s) {
      assert s !in AlreadyInstalled(p, x.db, seats);
    }
  }

  lemma {:induction false} PassKeeps(p: Plan, init: Db, x: Exec, done: set<Seat>, seats: seq<Seat>, n: nat)
    requires InPlan(p, seats) && n <= |seats|
    ensures Progress(p, init, x, UnpackPass(p, x, done, seats, n).0)
  {
    hide AllMeet, IsInstalled, IsUnpacked, Chain;
    if n > 0 {
      PassKeeps(p, init, x, done, seats, n - 1);
      var (x1, progress, found) := UnpackPass(p, x, done, seats, n - 1);
      var s := seats[n - 1];
      if !IsUnpacked(p, x1.db, p.sel[s]) && AllMeet(ForUnpack, p, x1.db, done, s) {
        DoneIrrelevant(ForUnpack, p, x1.db, done, s);
        UnpackProgress(p, init, x1, s);
        ProgressTrans(p, init, x, x1, DoUnpack(p, x1, s));
      }
    }
  }

  /** A pass without progress changes nothing: what is packed cannot be unpacked. */
  lemma {:induction false} NothingUnpacked(p: Plan, x: Exec, done: set<Seat>, seats: seq<Seat>, n: nat)
    requires InPlan(p, seats) && n <= |seats| && !UnpackPass(p, x, done, seats, n).1
    ensures UnpackPass(p, x, done, seats, n).0 == x
    ensures forall s :: s in seats[..n] ==> IsUnpacked(p, x.db, p.sel[s]) || !AllMeet(ForUnpack, p, x.db, done, s)
    ensures !UnpackPass(p, x, done, seats, n).2 ==> forall s :: s in seats[..n] ==> !IsUnpacked(p, x.db, p.sel[s])
  {
    hide AllMeet, IsUnpacked;
    if n > 0 {
      NothingUnpacked(p, x, done, seats, n - 1);
      assert seats[..n] == seats[..n - 1] + [seats[n - 1]];
    }
  }

  /** At the end of the passes nothing more can be unpacked; if no seat was found unpacked, then
      none is, for a pass that makes progress leaves one that the next pass finds. */
  lemma {:induction false} UnpackAllKeeps(p: Plan, init: Db, x: Exec, done: set<Seat>, seats: seq<Seat>, found: bool)
    requires InPlan(p, seats)
    ensures var (x', found') := UnpackAll(p, x, done, seats, found);
      && Progress(p, init, x, x')
      && (forall s :: s in seats ==> IsUnpacked(p, x'.db, p.sel[s]) || !AllMeet(ForUnpack, p, x'.db, done, s))
      && (!found' ==> x' == x && forall s :: s in seats ==> !IsUnpacked(p, x.db, p.sel[s]))
    decreases Packed(p, x.db, seats)
  {
    var (x1, progress, found1) := UnpackPass(p, x, done, seats, |seats|);
    PassProgress(p, x, done, seats, |seats|);
    PassKeeps(p, init, x, done, seats, |seats|);
    if progress {
      UnpackAllKeeps(p, init, x1, done, seats, found || found1);
      ProgressTrans(p, init, x, x1, UnpackAll(p, x, done, seats, found).0);
      var s :| s in Packed(p, x.db, seats) && s !in Packed(p, x1.db, seats);
    } else {
      NothingUnpacked(p, x, done, seats, |seats|);
      assert seats[..|seats|] == seats;
    }
  }

  lemma {:induction false} TryEachHandled(p: Plan, init: Db, x: Exec, y: Exec, done: set<Seat>, seats: seq<Seat>,
                                          i: nat)
    requires InPlan(p, seats) && i <= |seats| && seats != [] && Progress(p, init, x, y)
    requires forall s :: s in seats ==> Blocked(p, y.db, done, s)
    requires forall s :: s in seats ==> IsUnpacked(p, y.db, p.sel[s]) || !AllMeet(ForUnpack, p, y.db, done, s)
    requires forall s :: s in seats[..i] ==> !AllMeet(UnpackIsEnough, p, y.db, done, s)
    ensures Outcome(p, init, x, TryEach(p, y, done, seats, i), done, seats)
    decreases |seats| - i
  {
    if i == |seats| {
      assert seats[..i] == seats;
      assert Drained(p, y.db, done, seats);
      GiveUpHandled(p, init, x, y, done, seats);
      assert seats[0] in Elems(seats);
    } else if AllMeet(UnpackIsEnough, p, y.db, done, seats[i]) {
      DoneIrrelevant(UnpackIsEnough, p, y.db, done, seats[i]);
      InstallProgress(p, init, y, seats[i]);
      ProgressTrans(p, init, x, y, DoInstall(p, y, seats[i]));
    } else {
      assert seats[..i + 1] == seats[..i] + [seats[i]];
      TryEachHandled(p, init, x, y, done, seats, i + 1);
    }
  }

  /** What a call for some seats gives: some of them are marked done, and these are settled. */
  ghost predicate Outcome(p: Plan, init: Db, x: Exec, r: (Exec, set<Seat>), done: set<Seat>, seats: seq<Seat>)
    requires InPlan(p, seats)
  {
    && Handled(p, init, x, r, done, seats)
    && r.1 != {} && r.1 <= Elems(seats) && forall s :: s in r.1 ==> Settled(p, r.0, s)
  }

  /** When nothing could be installed right away. */
  lemma CycleHandled(p: Plan, init: Db, x: Exec, done: set<Seat>, seats: seq<Seat>)
    requires InPlan(p, seats) && seats != [] && InstallSome(p, x, done, seats) == (x, {})
    requires Hopeful(p, x.db, done, seats)
    ensures Outcome(p, init, x, HandleComponent(p, x, done, seats), done, seats)
  {
    hide Progress, Settled, Blocked;
    var (x2, found) := UnpackAll(p, x, done, seats, false);
    UnpackAllKeeps(p, init, x, done, seats, false);
    if !found {
      NothingInstalled(p, x, done, seats);
      assert Drained(p, x2.db, done, seats);
      GiveUpHandled(p, init, x, x2, done, seats);
      assert seats[0] in Elems(seats);
    } else {
      var (x3, m3) := InstallSome(p, x2, done, seats);
      SomeProgress(p, init, x2, done, seats);
      if m3 != {} {
        ProgressTrans(p, init, x, x2, x3);
      } else {
        NothingInstalled(p, x2, done, seats);
        TryEachHandled(p, init, x, x2, done, seats, 0);
      }
    }
  }

  /** On any component, some seat is marked done, only justified actions are taken, and what is
      marked is installed or was given up. Seats are given up only together, when none of them is
      installed or can be, not even after unpacking what can be unpacked. */
  lemma HandleProgress(p: Plan, init: Db, x: Exec, done: set<Seat>, seats: seq<Seat>)
    requires InPlan(p, seats) && seats != []
    ensures Outcome(p, init, x, HandleComponent(p, x, done, seats), done, seats)
  {
    hide Progress, Settled, Blocked;
    var (x1, m1) := InstallSome(p, x, done, seats);
    SomeProgress(p, init, x, done, seats);
    if m1 == {} {
      NothingInstalled(p, x, done, seats);
      if Hopeful(p, x.db, done, seats) {
        CycleHandled(p, init, x, done, seats);
      } else {
        GiveUpHandled(p, init, x, x1, done, seats);
        assert seats[0] in Elems(seats);
      }
    }
  }

  lemma HandlingDutiful(p: Plan)
    ensures Dutiful(Handling(p))
  {
    var f := Handling(p);
    forall x, done, seats | seats != [] && Distinct(seats) && Elems(seats) !! done
      ensures f(x, done, seats).1 != {} && f(x, done, seats).1 <= Elems(seats)
    {
      assert seats[0] in Elems(seats);
      if InPlan(p, seats) {
        HandleProgress(p, x.db, x, done, seats);
      }
    }
  }

  /** The seats given up are a component of what was not done, and what was done is settled. */
  ghost predicate GivenUpInOrder(p: Plan, trace: seq<Action>, i: nat)
    requires i < |trace| && trace[i].GaveUp?
  {
    var a := trace[i];
    && IsComponent(SelectedGraph(p.net, p.sel), a.done, a.seats)
    && forall r :: r in a.done ==> Settled(p, Exec(a.before, trace[..i]), r)
  }

  ghost predicate InOrder(p: Plan, trace: seq<Action>) {
    forall i :: 0 <= i < |trace| && trace[i].GaveUp? ==> GivenUpInOrder(p, trace, i)
  }

  /** Only what is done was given up. */
  ghost predicate GivenUpWithin(trace: seq<Action>, done: set<Seat>) {
    forall i :: 0 <= i < |trace| && trace[i].GaveUp? ==> Elems(trace[i].seats) <= done
  }

  lemma HandledInOrder(p: Plan, init: Db, x: Exec, r: (Exec, set<Seat>), done: set<Seat>, seats: seq<Seat>)
    requires InPlan(p, seats) && Handled(p, init, x, r, done, seats)
    requires InOrder(p, x.trace) && GivenUpWithin(x.trace, done)
    requires IsComponent(SelectedGraph(p.net, p.sel), done, seats) && forall s :: s in done ==> Settled(p, x, s)
    ensures InOrder(p, r.0.trace) && GivenUpWithin(r.0.trace, done + r.1)
  {
    hide IsComponent, Settled, Stuck;
    var trace := r.0.trace;
    forall i | 0 <= i < |trace| && trace[i].GaveUp?
      ensures GivenUpInOrder(p, trace, i) && Elems(trace[i].seats) <= done + r.1
    {
      if i < |x.trace| {
        assert trace[..i] == x.trace[..i] && trace[i] == x.trace[i];
        assert GivenUpInOrder(p, x.trace, i);
      } else {
        var y :| Progress(p, init, x, y) && Stuck(p, y.db, done, seats) && r == GiveUp(y, done, seats);
        assert i == |y.trace| && trace[..i] == y.trace;
        forall s | s in done ensures Settled(p, y, s) {
          SettledStays(p, init, x, y, s);
        }
      }
    }
  }

  lemma ChainEmpty(p: Plan, init: Db, x: Exec)
    requires x == Exec(init, [])
    ensures Chain(p, init, x.trace, x.db) && InOrder(p, x.trace) && GivenUpWithin(x.trace, {})
  {
  }

  /** Over any run: the trace is a chain of justified actions, every seat that is done is
      installed as selected or was given up, and only stuck components are given up, after
      all they lead to was settled. */
  lemma {:induction false} RunSettles(p: Plan, init: Db, log: seq<Event<Exec>>, x: Exec, done: set<Seat>)
    requires Run(SelectedGraph(p.net, p.sel), Handling(p), Exec(init, []), log, x, done)
    ensures Chain(p, init, x.trace, x.db) && InOrder(p, x.trace)
    ensures GivenUpWithin(x.trace, done) && forall s :: s in done ==> Settled(p, x, s)
    decreases |log|
  {
    hide Settled, Stuck, Handled, Chain, InOrder, GivenUpWithin, HandleComponent;
    if log == [] {
      ChainEmpty(p, init, x);
    } else {
      var e := log[|log| - 1];
      RunSettles(p, init, log[..|log| - 1], e.before, e.done);
      forall i | 0 <= i < |e.seats| ensures e.seats[i] < p.net.seats {
        assert e.seats[i] in Elems(e.seats);
      }
      HandleProgress(p, init, e.before, e.done, e.seats);
      var r := HandleComponent(p, e.before, e.done, e.seats);
      HandledKeeps(p, init, e.before, r, e.done, e.seats);
      HandledInOrder(p, init, e.before, r, e.done, e.seats);
    }
  }

  /** Every action of a chain is justified. */
  lemma {:induction false} ChainJustified(p: Plan, init: Db, trace: seq<Action>, db: Db, i: nat)
    requires Chain(p, init, trace, db) && i < |trace|
    ensures Justified(p, trace[i])
    decreases |trace|
  {
    if i < |trace| - 1 {
      ChainJustified(p, init, trace[..|trace| - 1], trace[|trace| - 1].before, i);
    }
  }

  /** A chain changes nothing but to what was selected, and no flags. */
  lemma {:induction false} ChainStatus(p: Plan, init: Db, trace: seq<Action>, db: Db, s: Seat)
    requires Chain(p, init, trace, db)
    ensures StatusOf(db, s).flags == StatusOf(init, s).flags
    ensures StatusOf(db, s) == StatusOf(init, s) ||
      (s < p.net.seats && StatusOf(db, s).version == p.version[p.sel[s]])
    ensures StatusOf(db, s) == StatusOf(init, s) ||
      exists i :: 0 <= i < |trace| && !trace[i].GaveUp? && trace[i].seat == s
    decreases |trace|
  {
    if trace != [] {
      var a := trace[|trace| - 1];
      ChainStatus(p, init, trace[..|trace| - 1], a.before, s);
      if !a.GaveUp? {
        ActionKeeps(p, a.before, a.seat);
      }
    }
  }

  ghost predicate StuckComponent(p: Plan, a: Action)
    requires a.GaveUp?
  {
    && IsComponent(SelectedGraph(p.net, p.sel), a.done, a.seats)
    && InPlan(p, a.seats) && Stuck(p, a.before, a.done, a.seats)
  }

  /** A seat that is not installed in the end was given up with the whole of a stuck component. */
  lemma NotInstalledWasStuck(p: Plan, init: Db, x: Exec, s: Seat)
    requires Chain(p, init, x.trace, x.db) && InOrder(p, x.trace)
    requires Settled(p, x, s) && !IsInstalled(p, x.db, p.sel[s])
    ensures exists a :: a in x.trace && a.GaveUp? && s in a.seats && StuckComponent(p, a)
  {
    var i :| 0 <= i < |x.trace| && x.trace[i].GaveUp? && s in x.trace[i].seats;
    ChainJustified(p, init, x.trace, x.db, i);
    assert GivenUpInOrder(p, x.trace, i);
    assert StuckComponent(p, x.trace[i]);
  }

  /* Where giving up comes from. */

  /** The component would have been fine with its own members installed: a cycle that could not be broken. */
  predicate Unbreakable(p: Plan, a: Action) {
    a.GaveUp? && InPlan(p, a.seats) && Hopeful(p, a.before, a.done, a.seats)
  }

  /** The seats lead to a seat that was given up before them. */
  ghost predicate FollowsFailure(p: Plan, trace: seq<Action>, i: nat)
    requires i < |trace| && trace[i].GaveUp?
  {
    exists j, s, w :: 0 <= j < i && trace[j].GaveUp? && w in trace[j].seats
      && s in trace[i].seats && s < p.net.seats && w in SelectedGraph(p.net, p.sel)[s]
  }

  /** A seat that has no hope leads to a seat that is done without being installed. */
  lemma NoHope(p: Plan, db: Db, done: set<Seat>, s: Seat) returns (w: Seat)
    requires s < p.net.seats && Complete(p, {s}) && !AllMeet(Optimistic, p, db, done, s)
    ensures w in SelectedGraph(p.net, p.sel)[s] && w in done && w < p.net.seats && !IsInstalled(p, db, p.sel[w])
  {
    var d :| d in p.net.deps[p.sel[s]] && !Meets(Optimistic, p, db, done, d);
    assert s in {s} && d in SeatDeps(p.net, p.sel, s);
    assert DepSatisfied(p.net, p.sel, d);
    var c :| c in d.alts && IsSelected(p.net, p.sel, c);
    assert !HopedFor(p, db, done, d, c);
    SelectedEdge(p.net, p.sel, s, d, c);
    w := SeatOf(p.net, c);
  }

  /** When every dep has a selected alternative, then a component that is given up is an unbreakable
      cycle, or else depends on a seat outside of it that was given up earlier. */
  lemma GaveUpCause(p: Plan, init: Db, trace: seq<Action>, db: Db, i: nat)
    requires Chain(p, init, trace, db) && InOrder(p, trace) && i < |trace| && trace[i].GaveUp?
    requires Complete(p, Elems(trace[i].seats))
    ensures Unbreakable(p, trace[i]) || FollowsFailure(p, trace, i)
  {
    hide Stuck, IsComponent, AllMeet, IsInstalled;
    var a := trace[i];
    ChainJustified(p, init, trace, db, i);
    if !Unbreakable(p, a) {
      var s :| s in a.seats && !AllMeet(Optimistic, p, a.before, a.done, s);
      assert Complete(p, {s}) by {
        assert s in Elems(a.seats);
      }
      var w := NoHope(p, a.before, a.done, s);
      assert GivenUpInOrder(p, trace, i);
      assert Settled(p, Exec(a.before, trace[..i]), w);
      var j :| 0 <= j < i && trace[j].GaveUp? && w in trace[j].seats;
      assert w in trace[j].seats && s in a.seats && w in SelectedGraph(p.net, p.sel)[s];
    }
  }

  /** So without unbreakable cycles nothing at all is given up. */
  lemma {:induction false} NothingGivenUp(p: Plan, init: Db, trace: seq<Action>, db: Db, i: nat)
    requires Chain(p, init, trace, db) && InOrder(p, trace) && i < |trace|
    requires forall a :: a in trace ==> !Unbreakable(p, a)
    requires forall j :: 0 <= j < |trace| && trace[j].GaveUp? ==> Complete(p, Elems(trace[j].seats))
    ensures !trace[i].GaveUp?
    decreases i
  {
    if trace[i].GaveUp? {
      GaveUpCause(p, init, trace, db, i);
      var j, s, w :| 0 <= j < i && trace[j].GaveUp? && w in trace[j].seats
        && s in trace[i].seats && s < p.net.seats && w in SelectedGraph(p.net, p.sel)[s];
      NothingGivenUp(p, init, trace, db, j);
    }
  }

  /** A complete plan is carried out in full if it contains no unbreakable cycle, however cyclic it is. */
  lemma AllInstalled(p: Plan, init: Db, x: Exec, reached: set<Seat>)
    requires Chain(p, init, x.trace, x.db) && InOrder(p, x.trace) && GivenUpWithin(x.trace, reached)
    requires forall s :: s in reached ==> Settled(p, x, s)
    ensures Complete(p, reached) && (forall a :: a in x.trace ==> !Unbreakable(p, a)) ==>
      forall s :: s in reached ==> s < p.net.seats && IsInstalled(p, x.db, p.sel[s])
  {
    if Complete(p, reached) && forall a :: a in x.trace ==> !Unbreakable(p, a) {
      forall j | 0 <= j < |x.trace| && x.trace[j].GaveUp? ensures Complete(p, Elems(x.trace[j].seats)) {
      }
      forall s | s in reached ensures s < p.net.seats && IsInstalled(p, x.db, p.sel[s]) {
        assert Settled(p, x, s);
        if !IsInstalled(p, x.db, p.sel[s]) {
          var i :| 0 <= i < |x.trace| && x.trace[i].GaveUp? && s in x.trace[i].seats;
          NothingGivenUp(p, init, x.trace, x.db, i);
        }
      }
    }
  }

  /* Acyclic plans. */

  /** No seat of the region depends on itself, however indirectly. */
  ghost predicate Acyclic(g: Graph, region: set<Seat>) {
    forall v, w :: v in region && v < |g| && w in g[v] ==> !Reach(g, Everything(g), w, v)
  }

  /** Every dep of every seat of the region has a selected alternative. */
  ghost predicate Complete(p: Plan, region: set<Seat>) {
    forall s, d :: s in region && d in SeatDeps(p.net, p.sel, s) ==> DepSatisfied(p.net, p.sel, d)
  }

  lemma ReachFirst(g: Graph, inner: set<nat>, a: nat, b: nat)
    requires Reach(g, inner, a, b) && a != b
    ensures a < |g| && exists w :: w in g[a] && Reach(g, inner, w, b)
  {
    var q :| IsPath(g, inner, q) && q[0] == a && q[|q| - 1] == b;
    assert q[1] in g[q[0]];
    assert IsPath(g, inner, q[1..]);
  }

  /** Without cycles the walk passes single seats, whose successors are all done. */
  lemma AcyclicSingle(g: Graph, region: set<nat>, done: set<nat>, seats: seq<nat>)
    requires IsComponent(g, done, seats) && Acyclic(g, region) && Elems(seats) <= region
    ensures |seats| == 1 && seats[0] < |g| && forall w :: w in g[seats[0]] ==> w in done
  {
    var live := Everything(g) - done;
    assert seats != [];
    var a := seats[0];
    assert a in Elems(seats);
    if |seats| > 1 {
      var b := seats[1];
      assert b in Elems(seats) && Mutual(g, live, a, b);
      ReachMono(g, live, Everything(g), a, b);
      ReachMono(g, live, Everything(g), b, a);
      ReachFirst(g, Everything(g), a, b);
      var w :| w in g[a] && Reach(g, Everything(g), w, b);
      ReachTrans(g, Everything(g), w, b, a);
      assert false;
    }
    ReachRefl(g, Everything(g), a);
    forall w | w in g[a] ensures w in done {
    }
  }

  /** Every dep of the seat has a selected alternative that is installed. */
  ghost predicate Ready(p: Plan, db: Db, s: Seat)
    requires s < p.net.seats
  {
    forall d :: d in p.net.deps[p.sel[s]] ==>
      exists a :: a in d.alts && IsSelected(p.net, p.sel, a) && IsInstalled(p, db, a)
  }

  /** An orderly trace only installs, each seat once, and each when it is ready. */
  ghost predicate Orderly(p: Plan, trace: seq<Action>) {
    && (forall i :: 0 <= i < |trace| ==>
      trace[i].Installed? && trace[i].seat < p.net.seats && Ready(p, trace[i].before, trace[i].seat))
    && (forall i, j :: 0 <= i < j < |trace| ==> trace[i].seat != trace[j].seat)
  }

  ghost predicate InstalledUpTo(p: Plan, x: Exec, done: set<Seat>) {
    && (forall s :: s in done ==> s < p.net.seats && IsInstalled(p, x.db, p.sel[s]))
    && Orderly(p, x.trace) && forall i :: 0 <= i < |x.trace| ==> x.trace[i].seat in done
  }

  /** One component of an acyclic, complete plan. */
  lemma HandleSingle(p: Plan, x: Exec, done: set<Seat>, s: Seat)
    requires s < p.net.seats && s !in done && InstalledUpTo(p, x, done)
    requires forall d :: d in SeatDeps(p.net, p.sel, s) ==> DepSatisfied(p.net, p.sel, d)
    requires forall w :: w in SelectedGraph(p.net, p.sel)[s] ==> w in done
    ensures var (x', marked) := HandleComponent(p, x, done, [s]);
      marked == {s} && InstalledUpTo(p, x', done + {s})
  {
    hide HandleComponent, AllMeet, IsInstalled, Ready, Orderly, SelectedGraph, SeatDeps, DepSatisfied;
    SingleReady(p, x.db, done, s);
    ReadyMeets(p, x.db, done, s);
    SingleInstalls(p, x, done, s);
    SingleOrderly(p, x, done, s);
    if !IsInstalled(p, x.db, p.sel[s]) {
      InstallKept(p, x, s);
    }
  }

  lemma InstallKept(p: Plan, x: Exec, s: Seat)
    requires s < p.net.seats && AllMeet(ForInstall, p, x.db, {}, s)
    ensures IsInstalled(p, DoInstall(p, x, s).db, p.sel[s])
    ensures forall r :: 0 <= r < p.net.seats && IsInstalled(p, x.db, p.sel[r]) ==>
      IsInstalled(p, DoInstall(p, x, s).db, p.sel[r])
  {
    hide AllMeet;
    ActionKeeps(p, x.db, s);
    InstallProgress(p, x.db, x, s);
  }

  lemma SingleOrderly(p: Plan, x: Exec, done: set<Seat>, s: Seat)
    requires s < p.net.seats && s !in done && Orderly(p, x.trace) && Ready(p, x.db, s)
    requires forall i :: 0 <= i < |x.trace| ==> x.trace[i].seat in done
    ensures Orderly(p, DoInstall(p, x, s).trace)
  {
    hide Ready;
  }

  lemma SingleReady(p: Plan, db: Db, done: set<Seat>, s: Seat)
    requires s < p.net.seats && forall d :: d in SeatDeps(p.net, p.sel, s) ==> DepSatisfied(p.net, p.sel, d)
    requires forall w :: w in SelectedGraph(p.net, p.sel)[s] ==> w in done
    requires forall w :: w in done ==> w < p.net.seats && IsInstalled(p, db, p.sel[w])
    ensures Ready(p, db, s)
  {
    forall d | d in p.net.deps[p.sel[s]]
      ensures exists a :: a in d.alts && IsSelected(p.net, p.sel, a) && IsInstalled(p, db, a)
    {
      assert d in SeatDeps(p.net, p.sel, s);
      var a :| a in d.alts && IsSelected(p.net, p.sel, a);
      SelectedEdge(p.net, p.sel, s, d, a);
    }
  }

  lemma ReadyMeets(p: Plan, db: Db, done: set<Seat>, s: Seat)
    requires s < p.net.seats && Ready(p, db, s)
    ensures AllMeet(ForInstall, p, db, done, s) && AllMeet(ForInstall, p, db, {}, s)
  {
    forall d | d in p.net.deps[p.sel[s]]
      ensures Meets(ForInstall, p, db, done, d) && Meets(ForInstall, p, db, {}, d)
    {
      var a :| a in d.alts && IsSelected(p.net, p.sel, a) && IsInstalled(p, db, a);
      assert SatisfiedBy(p, db, d, a);
    }
  }

  lemma SingleInstalls(p: Plan, x: Exec, done: set<Seat>, s: Seat)
    requires s < p.net.seats && AllMeet(ForInstall, p, x.db, done, s)
    ensures HandleComponent(p, x, done, [s]) == (if IsInstalled(p, x.db, p.sel[s]) then x else DoInstall(p, x, s), {s})
  {
    hide AllMeet, IsInstalled;
    if IsInstalled(p, x.db, p.sel[s]) {
      assert AlreadyInstalled(p, x.db, [s]) == {s};
    } else {
      assert AlreadyInstalled(p, x.db, [s]) == {};
      assert InstallSatisfied(p, x, ForInstall, done, [s], 0) == (x, {});
      assert [s][0] == s && {} + {s} == {s};
      assert InstallSatisfied(p, x, ForInstall, done, [s], 1) == (DoInstall(p, x, s), {s});
    }
  }

  lemma {:induction false} RunInOrder(p: Plan, init: Db, log: seq<Event<Exec>>, x: Exec, done: set<Seat>,
                                      region: set<Seat>)
    requires Run(SelectedGraph(p.net, p.sel), Handling(p), Exec(init, []), log, x, done)
    requires AllDone(log, 0, region) && Acyclic(SelectedGraph(p.net, p.sel), region) && Complete(p, region)
    ensures InstalledUpTo(p, x, done)
    decreases |log|
  {
    if log != [] {
      var e := log[|log| - 1];
      RunInOrder(p, init, log[..|log| - 1], e.before, e.done, region);
      AcyclicSingle(SelectedGraph(p.net, p.sel), region, e.done, e.seats);
      assert e.seats[0] in Elems(e.seats) && e.seats == [e.seats[0]];
      HandleSingle(p, e.before, e.done, e.seats[0]);
    }
  }

  lemma UpToEach(p: Plan, x: Exec, done: set<Seat>)
    requires InstalledUpTo(p, x, done)
    ensures Orderly(p, x.trace) && forall s :: s in done ==> s < p.net.seats && IsInstalled(p, x.db, p.sel[s])
  {
  }

  /** Carry out the plan for all relevant seats and what they depend on. The log lists the
      components that were handled. */
  method Execute(p: Plan, seats: seq<Seat>, relevant: set<Seat>, init: Db)
    returns (x: Exec, ghost reached: set<Seat>, ghost log: seq<Event<Exec>>)
    requires InPlan(p, seats)
    ensures reached == ReachableSet(SelectedGraph(p.net, p.sel), Roots(seats, relevant))
    ensures Run(SelectedGraph(p.net, p.sel), Handling(p), Exec(init, []), log, x, reached)
    ensures Chain(p, init, x.trace, x.db) && InOrder(p, x.trace)
    ensures GivenUpWithin(x.trace, reached) && forall s :: s in reached ==> Settled(p, x, s)
    ensures Complete(p, reached) && (forall a :: a in x.trace ==> !Unbreakable(p, a)) ==>
      forall s :: s in reached ==> s < p.net.seats && IsInstalled(p, x.db, p.sel[s])
    ensures Acyclic(SelectedGraph(p.net, p.sel), reached) && Complete(p, reached) ==>
      Orderly(p, x.trace) && forall s :: s in reached ==> s < p.net.seats && IsInstalled(p, x.db, p.sel[s])
  {
    hide Chain, InOrder, GivenUpWithin, Settled, Orderly, Acyclic, Complete, Unbreakable;
    SelectedGraphValid(p.net, p.sel);
    HandlingDutiful(p);
    var final, done, events, peak := Order(SelectedGraph(p.net, p.sel), seats, relevant, Handling(p), Exec(init, []));
    x, reached, log := final, done, events;
    RunSettles(p, init, log, x, done);
    AllInstalled(p, init, x, reached);
    if Acyclic(SelectedGraph(p.net, p.sel), reached) && Complete(p, reached) {
      RunInOrder(p, init, log, x, done, reached);
      UpToEach(p, x, done);
    }
  }
}
