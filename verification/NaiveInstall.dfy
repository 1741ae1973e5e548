/** Planning an installation naively: walk the deps from the goal and select the
    best candidate wherever a dep is not satisfied yet, then revert what the goal
    does not need. */
module NaiveInstall {
  import opened Basics
  import opened Graphs
  import opened Network
  import opened Versions
  import opened Catalogs
  import opened Cleanup
  import opened TagSets
  import opened Workspaces
  import opened Searches

  /** The network of a workspace, as the goal check sees it. */
  function NetOf(ws: Workspace): Net
    requires ws.Valid()
    reads ws
  {
    Net(ws.cat.seats, seq(|ws.cat.info|, c requires 0 <= c < |ws.cat.info| => ws.cat.info[c].seat), ws.AllDeps())
  }

  lemma NetValid(ws: Workspace)
    requires ws.Valid()
    ensures ValidNet(NetOf(ws)) && ValidSelection(NetOf(ws), ws.selected)
    ensures forall sel, c :: |sel| == ws.cat.seats && 0 <= c < |ws.cat.info| ==>
      (Chosen(ws.cat, sel, c) <==> IsSelected(NetOf(ws), sel, c))
  {
    var net := NetOf(ws);
    forall c | 0 <= c < |net.seatOf| ensures net.seatOf[c] < net.seats {
      assert ValidInfo(ws.cat, ws.cat.info[c]);
    }
    forall c, k | 0 <= c < |net.deps| && 0 <= k < |net.deps[c]| ensures ValidDep(net, net.deps[c][k]) {
      assert net.deps[c] == ws.DepsAt(c);
      assert AltsOn(ws.cat, ws.deps[ws.depsOf[c][k]]);
    }
    ConfigSelection(ws, ws.selected);
  }

  lemma ConfigSelection(ws: Workspace, sel: Selection)
    requires ws.Valid() && ValidConfig(ws.cat, sel)
    ensures ValidSelection(NetOf(ws), sel)
  {
    forall s | 0 <= s < |sel| ensures OnSeat(ws.cat, sel[s], s) {
      var k :| 0 <= k < |ws.cat.members[s]| && ws.cat.members[s][k] == sel[s];
    }
  }

  /* Choosing an alternative. */

  /** `b` replaces `a`, which may be missing, as the best candidate so far. */
  method BetterThan(cat: Catalog, a: Option<Cand>, b: Cand) returns (better: bool)
    requires b < |cat.info| && (a.Some? ==> a.value < |cat.info|)
    ensures better <==>
      || a.None? || cat.info[a.value].version.None?
      || (cat.info[b].version.Some?
          && VersionOrder(Chars(cat.info[b].version.value), Chars(cat.info[a.value].version.value)) > 0)
  {
    if a.None? || cat.info[a.value].version.None? {
      return true;
    }
    if cat.info[b].version.None? {
      return false;
    }
    var r := CompareTexts(cat.info[b].version.value, cat.info[a.value].version.value);
    return r > 0;
  }

  /** The problem a workspace poses. */
  ghost function ProblemOf(ws: Workspace): Problem
    requires ws.Valid()
    reads ws
  {
    Problem(ws.cat, ws.AllDeps(), ws.selected)
  }

  lemma ProblemValid(ws: Workspace)
    requires ws.Valid()
    ensures ValidProblem(ProblemOf(ws))
  {
    var p := ProblemOf(ws);
    forall c | 0 <= c < |p.cat.info| ensures p.cat.info[c].seat < p.cat.seats {
      assert ValidInfo(p.cat, p.cat.info[c]);
    }
    forall c, d | 0 <= c < |p.deps| && d in p.deps[c] ensures AltsAre(p.cat, d.alts) {
      assert p.deps[c] == ws.DepsAt(c);
      var k :| 0 <= k < |p.deps[c]| && p.deps[c][k] == d;
      assert AltsOn(p.cat, ws.deps[ws.depsOf[c][k]]);
    }
  }

  lemma SatisfiedIs(ws: Workspace, acceptUgly: bool, a: Cand)
    requires ws.Valid() && a < |ws.cat.info|
    ensures Chosen(ws.cat, ws.selected, a) && ws.CandSatisfied(a) && (acceptUgly || a != ws.cat.ugly) <==>
      Usable(ws.cat, ws.AllDeps(), ws.selected, acceptUgly, a)
  {
    assert ws.AllDeps()[a] == ws.DepsAt(a);
  }

  method FindBest(ws: Workspace, alts: seq<Cand>, acceptUgly: bool) returns (best: Option<Cand>)
    requires ws.Valid() && AltsAre(ws.cat, alts)
    ensures IsBestAlt(ws.cat, ws.AllDeps(), ws.selected, acceptUgly, alts, best)
    ensures best.Some? ==> best.value < |ws.cat.info|
    ensures alts != [] && (forall k :: 0 <= k < |alts| ==>
        !Usable(ws.cat, ws.AllDeps(), ws.selected, acceptUgly, alts[k])) ==>
      best.Some? && NoneNewer(ws.cat, alts, best.value) && OlderBefore(ws.cat, alts, best.value)
  {
    hide Linked, Counted, Tallied, ValidConfig, ValidCatalog, Usable, Newest;
    for i := 0 to |alts|
      invariant forall k :: 0 <= k < i ==> !Usable(ws.cat, ws.AllDeps(), ws.selected, acceptUgly, alts[k])
    {
      SatisfiedIs(ws, acceptUgly, alts[i]);
      if Chosen(ws.cat, ws.selected, alts[i]) && ws.CandSatisfied(alts[i]) && (acceptUgly || alts[i] != ws.cat.ugly) {
        assert FirstUsable(ws.cat, ws.AllDeps(), ws.selected, acceptUgly, alts, i);
        return Some(alts[i]);
      }
    }
    best := NewestOf(ws.cat, alts);
    if alts != [] {
      NewestMeans(ws.cat, alts, best.value);
    }
    BestInside(ws.cat, ws.AllDeps(), ws.selected, acceptUgly, alts, best);
  }

  method NewestOf(cat: Catalog, alts: seq<Cand>) returns (best: Option<Cand>)
    requires AltsAre(cat, alts)
    ensures if alts == [] then best == None else best.Some? && Newest(cat, alts, alts, best.value)
  {
    hide VersionOrder, PickedAt;
    best := None;
    ghost var at := 0;
    for i := 0 to |alts|
      invariant best.None? <==> i == 0
      invariant best.Some? ==> at < i && best.value == alts[at] && PickedAt(cat, alts[..i], cat.info[alts[0]].seat, at)
    {
      assert alts[..i + 1] == alts[..i] + [alts[i]];
      if i == 0 {
        PickFirst(cat, alts[0]);
        assert alts[..1] == [alts[0]];
      } else {
        assert alts[..i][at] == alts[at];
        PickStep(cat, alts[..i], cat.info[alts[0]].seat, at, alts[i]);
      }
      if cat.info[alts[i]].seat == cat.info[alts[0]].seat {
        var better := BetterThan(cat, best, alts[i]);
        if better {
          best, at := Some(alts[i]), i;
        }
      }
    }
    assert alts[..|alts|] == alts;
  }

  /* The walk. */

  class Planner {
    const ws: Workspace
    const visited: TagSet
    const changed: TagSet
    ghost const problem: Problem
    /** The candidates walked so far. */
    ghost var trail: seq<Walk>

    ghost predicate Valid()
      reads this, ws, visited, visited.tags, changed, changed.tags
    {
      && ws.Valid() && visited.Valid() && changed.Valid()
      && visited.tags.Length == changed.tags.Length == ws.cat.seats
      && visited != changed && visited.tags != changed.tags
      && problem.cat == ws.cat && problem.deps == ws.AllDeps() && ValidProblem(problem)
      && ValidTrail(problem, trail) && Now() == End(problem, trail)
    }

    ghost function Now(): Position
      reads this, ws, visited, visited.tags, changed, changed.tags
    {
      Position(ws.selected, visited.Members(), changed.Members())
    }

    /** The seats that can still be walked or changed. */
    ghost function Left(): nat
      requires Valid()
      reads this, ws, visited, visited.tags, changed, changed.tags
    {
      |Untouched(visited)| + |Untouched(changed)|
    }

    constructor (ws: Workspace)
      requires ws.Valid()
      ensures Valid() && this.ws == ws && problem == ProblemOf(ws) && trail == []
      ensures fresh(visited) && fresh(visited.tags) && fresh(changed) && fresh(changed.tags)
    {
      this.ws := ws;
      visited := new TagSet(ws.cat.seats);
      changed := new TagSet(ws.cat.seats);
      problem := ProblemOf(ws);
      trail := [];
      new;
      ProblemValid(ws);
    }

    /** Decide whether to walk the deps of a candidate, and select it if need be. */
    method Arrive(c: Cand, ghost why: Reason) returns (walk: bool, acceptUgly: bool)
      requires Valid() && c < |ws.cat.info| && Proposed(problem, trail, why, c)
      modifies this`trail, ws`selected, ws`nSelected, ws`nUnsatisfied, visited.tags, changed.tags
      ensures Valid() && Kept(old(Now()), Now())
      ensures walk <==> MayWalk(problem, old(trail), c)
      ensures if walk then Left() < old(Left()) && trail == old(trail) + [Walk(c, why, old(ws.selected))]
        else Left() == old(Left()) && trail == old(trail) && Settles(problem, Now(), c)
      ensures walk ==> acceptUgly == AcceptsUgly(problem, trail, c)
    {
      hide Linked, Counted, Tallied, OnSeat, Untouched, Proposed, ValidTrail, ValidConfig, ValidCatalog, Kept;
      hide WalkedSeats, ChangedSeats, After;
      walk, acceptUgly := true, true;
      var s := ws.cat.info[c].seat;
      ConfigSize(ws);
      KeptRefl(Now());
      ChangedWalked(problem.cat, trail);
      if ws.selected[s] == c {
        if visited.Has(s) {
          return false, true;
        }
        Touch(visited, s);
      } else {
        if changed.Has(s) {
          return false, true;
        }
        Reselect(c);
        acceptUgly := false;
      }
      TrailStep(problem, trail, c, why);
      trail := trail + [Walk(c, why, old(ws.selected))];
      WalkKept(problem, old(trail), trail, c, why);
    }

    /** Another candidate for a seat. */
    method Reselect(c: Cand)
      requires ws.Valid() && visited.Valid() && changed.Valid() && c < |ws.cat.info|
      requires visited.tags.Length == changed.tags.Length == ws.cat.seats
      requires visited != changed && visited.tags != changed.tags && ws.cat.info[c].seat < ws.cat.seats
      modifies ws`selected, ws`nSelected, ws`nUnsatisfied, visited.tags, changed.tags
      ensures ws.Valid() && visited.Valid() && changed.Valid()
      ensures var s := ws.cat.info[c].seat;
        ws.selected == old(ws.selected)[s := c] && visited.Members() == old(visited.Members()) + {s}
        && changed.Members() == old(changed.Members()) + {s}
      ensures |Untouched(visited)| <= |old(Untouched(visited))|
      ensures |Untouched(changed)| == |old(Untouched(changed))| -
        if ws.cat.info[c].seat in old(changed.Members()) then 0 else 1
    {
      hide Linked, Counted, Tallied, OnSeat, Untouched, ValidConfig, ValidCatalog;
      var s := ws.cat.info[c].seat;
      Touch(changed, s);
      ws.Select(c);
      Touch(visited, s);
    }

    /** Make a candidate selected if its seat was not changed before, and walk its deps.
        The deps of the `open` candidates are being walked already. */
    method Visit(target: Option<Cand>, ghost why: Reason, ghost open: set<Cand>)
      requires Valid() && ExploredBut(problem, Now(), open)
      requires target.Some? ==> target.value < |ws.cat.info| && Proposed(problem, trail, why, target.value)
      modifies this`trail, ws`selected, ws`nSelected, ws`nUnsatisfied, visited.tags, changed.tags
      ensures Valid() && Left() <= old(Left()) && old(trail) <= trail
      ensures Kept(old(Now()), Now()) && ExploredBut(problem, Now(), open)
      ensures target.Some? ==> Settles(problem, Now(), target.value)
      ensures target.Some? && MayWalk(problem, old(trail), target.value) ==>
        old(trail) + [Walk(target.value, why, old(ws.selected))] <= trail
      decreases Left(), 0
    {
      hide Linked, Counted, Tallied, OnSeat, ValidConfig, ValidCatalog, Kept, Untouched, Proposed, ValidTrail;
      hide ExploredBut;
      if target.None? {
        KeptRefl(Now());
        return;
      }
      var c := target.value;
      ConfigSize(ws);
      ghost var before := Now();
      var walk, acceptUgly := Arrive(c, why);
      if walk {
        ghost var begun := Now();
        WalkBegins(problem, old(trail), trail, c, why, open);
        VisitDeps(c, acceptUgly, open + {c});
        KeptTrans(before, begun, Now());
        SettlesStays(problem, begun, Now(), c);
        ExploredCloses(problem, Now(), c, open);
      } else {
        assert Now() == before;
      }
    }

    lemma DepsAre(c: Cand)
      requires Valid() && c < |ws.cat.info|
      ensures c < |ws.depsOf| && c < |problem.deps| && |problem.deps[c]| == |ws.depsOf[c]|
      ensures forall i :: 0 <= i < |ws.depsOf[c]| ==>
        ws.depsOf[c][i] < |ws.deps| && problem.deps[c][i] == ws.deps[ws.depsOf[c][i]] &&
        AltsAre(ws.cat, problem.deps[c][i].alts)
    {
      hide Counted, Tallied, ValidTrail;
      assert problem.deps[c] == ws.DepsAt(c);
      forall i | 0 <= i < |ws.depsOf[c]| ensures AltsAre(ws.cat, problem.deps[c][i].alts) {
        assert problem.deps[c][i] in problem.deps[c];
      }
    }

    /** Take one dep of a candidate that is being walked. */
    method VisitDep(c: Cand, i: nat, acceptUgly: bool, ghost open: set<Cand>)
      requires Valid() && IsChosen(problem.cat, Now().sel, c) && OnTrail(trail, c) && i < |ws.depsOf[c]|
      requires acceptUgly == AcceptsUgly(problem, trail, c) && ExploredBut(problem, Now(), open)
      modifies this`trail, ws`selected, ws`nSelected, ws`nUnsatisfied, visited.tags, changed.tags
      ensures Valid() && Left() <= old(Left()) && old(trail) <= trail
      ensures Kept(old(Now()), Now()) && ExploredBut(problem, Now(), open)
      ensures c < |problem.deps| && i < |problem.deps[c]| && Tried(problem, Now(), problem.deps[c][i])
      ensures IsChosen(problem.cat, Now().sel, c) ==> acceptUgly == AcceptsUgly(problem, trail, c)
      decreases Left(), 1
    {
      hide Linked, Counted, Tallied, OnSeat, ValidConfig, IsBestAlt, ValidCatalog, Kept, Untouched, OnTrail;
      hide ValidTrail, ExploredBut;
      DepsAre(c);
      ghost var before, d := Now(), problem.deps[c][i];
      var best := FindBest(ws, ws.deps[ws.depsOf[c][i]].alts, acceptUgly);
      BestInside(ws.cat, ws.AllDeps(), ws.selected, acceptUgly, d.alts, best);
      Visit(best, Dependency(c, d), open);
      KeptAt(before, Now(), ws.cat.info[c].seat);
    }

    /** Walk the deps of a candidate, until they have changed its own seat. */
    method VisitDeps(c: Cand, acceptUgly: bool, ghost open: set<Cand>)
      requires Valid() && IsChosen(problem.cat, Now().sel, c) && OnTrail(trail, c)
      requires acceptUgly == AcceptsUgly(problem, trail, c) && ExploredBut(problem, Now(), open)
      modifies this`trail, ws`selected, ws`nSelected, ws`nUnsatisfied, visited.tags, changed.tags
      ensures Valid() && Left() <= old(Left()) && old(trail) <= trail
      ensures Kept(old(Now()), Now()) && ExploredBut(problem, Now(), open)
      ensures IsChosen(problem.cat, Now().sel, c) ==> AllTried(problem, Now(), c)
      decreases Left(), 2
    {
      hide Linked, Counted, Tallied, OnSeat, ValidConfig, IsBestAlt, ValidCatalog, Kept, Untouched, Proposed;
      hide ValidTrail, ExploredBut, TriedUpTo, AcceptsUgly, ValidProblem, OnTrail, AllTried;
      KeptRefl(Now());
      DepsAre(c);
      var ids := ws.depsOf[c];
      TriedNone(problem, Now(), c);
      for i := 0 to |ids|
        invariant Valid() && ws.depsOf[c] == ids && c < |problem.deps| && |problem.deps[c]| == |ids|
        invariant Left() <= old(Left()) && old(trail) <= trail
        invariant Kept(old(Now()), Now()) && ExploredBut(problem, Now(), open)
        invariant IsChosen(problem.cat, Now().sel, c) && acceptUgly == AcceptsUgly(problem, trail, c)
        invariant TriedUpTo(problem, Now(), c, i)
      {
        ghost var before := Now();
        OnTrailGrows(old(trail), trail, c);
        VisitDep(c, i, acceptUgly, open);
        KeptTrans(old(Now()), before, Now());
        TriedNext(problem, before, Now(), c, i);
        if ws.selected[ws.cat.info[c].seat] != c {
          return;
        }
      }
      TriedEnough(problem, Now(), c, |ids|);
    }
  }

  /** A walk that may begin changes its own seat at most, and only if that was not changed before. */
  lemma WalkKept(p: Problem, trail: seq<Walk>, trail': seq<Walk>, c: Cand, why: Reason)
    requires ValidProblem(p) && ValidTrail(p, trail) && c < |p.cat.info| && |After(p, trail)| == p.cat.seats
    requires MayWalk(p, trail, c) && Proposed(p, trail, why, c)
    requires trail' == trail + [Walk(c, why, After(p, trail))]
    ensures Kept(End(p, trail), End(p, trail'))
  {
    hide Proposed, ValidTrail, WalkedSeats, ChangedSeats, After;
    TrailStep(p, trail, c, why);
  }

  lemma WalkBegins(p: Problem, trail: seq<Walk>, trail': seq<Walk>, c: Cand, why: Reason, open: set<Cand>)
    requires ValidProblem(p) && ValidTrail(p, trail) && c < |p.cat.info| && |After(p, trail)| == p.cat.seats
    requires MayWalk(p, trail, c) && Proposed(p, trail, why, c)
    requires trail' == trail + [Walk(c, why, After(p, trail))] && Kept(End(p, trail), End(p, trail'))
    requires ExploredBut(p, End(p, trail), open)
    ensures ExploredBut(p, End(p, trail'), open + {c}) && IsChosen(p.cat, After(p, trail'), c)
    ensures OnTrail(trail', c) && Settles(p, End(p, trail'), c)
  {
    hide Proposed, ValidTrail, ExploredBut, Kept;
    TrailStep(p, trail, c, why);
    ExploredOpens(p, End(p, trail), End(p, trail'), c, open);
  }

  lemma KeptRefl(now: Position)
    ensures Kept(now, now)
  {
  }

  lemma ConfigSize(ws: Workspace)
    requires ws.Valid()
    ensures |ws.selected| == ws.cat.seats
  {
    hide Linked, Counted, Tallied, ValidCatalog;
  }

  /** Add a seat to a set: one seat less is outside of it, unless it was a member. */
  method Touch(ts: TagSet, s: nat)
    requires ts.Valid() && s < ts.tags.Length
    modifies ts.tags
    ensures ts.Valid() && ts.Members() == old(ts.Members()) + {s}
    ensures |Untouched(ts)| == |old(Untouched(ts))| - if s in old(ts.Members()) then 0 else 1
  {
    ts.Add(s);
    if s in old(ts.Members()) {
      assert Untouched(ts) == old(Untouched(ts));
    } else {
      assert ts.tags[s] == ts.tag;
      assert s in old(Untouched(ts)) && Untouched(ts) == old(Untouched(ts)) - {s};
    }
  }

  ghost function Untouched(ts: TagSet): set<nat>
    reads ts, ts.tags
  {
    set s: nat {:trigger ts.tags[s]} | s < ts.tags.Length && s !in ts.Members()
  }

  /** Put the unused seats back to their initial candidates. */
  method Revert(ws: Workspace, initial: Selection, unused: seq<Seat>)
    requires ws.Valid() && ValidConfig(ws.cat, initial) && forall i :: 0 <= i < |unused| ==> unused[i] < ws.cat.seats
    modifies ws`selected, ws`nSelected, ws`nUnsatisfied
    ensures ws.Valid() && ws.selected == Reverted(NetOf(ws), old(ws.selected), initial, unused)
  {
    hide Linked, Counted, Tallied, ValidCatalog;
    ghost var plan := ws.selected;
    for i := 0 to |unused|
      invariant ws.Valid() && ws.selected == Reverted(NetOf(ws), plan, initial, unused[..i])
    {
      assert unused[..i + 1] == unused[..i] + [unused[i]];
      var s := unused[i];
      MemberSeat(ws.cat, initial, s);
      if !Chosen(ws.cat, ws.selected, initial[s]) {
        ws.Select(initial[s]);
      }
    }
    assert unused[..|unused|] == unused;
  }

  lemma MemberSeat(cat: Catalog, sel: Selection, s: Seat)
    requires ValidCatalog(cat) && ValidConfig(cat, sel) && s < cat.seats
    ensures sel[s] < |cat.info| && cat.info[sel[s]].seat == s
  {
    var k :| 0 <= k < |cat.members[s]| && cat.members[s][k] == sel[s];
    assert OnSeat(cat, sel[s], s);
  }

  /** Walk the deps from the goal. */
  method WalkGoal(ws: Workspace) returns (ghost trail: seq<Walk>)
    requires ws.Valid()
    modifies ws`selected, ws`nSelected, ws`nUnsatisfied
    ensures ws.Valid() && NetOf(ws) == old(NetOf(ws))
    ensures ValidProblem(old(ProblemOf(ws))) && Searched(old(ProblemOf(ws)), trail)
    ensures ws.selected == After(old(ProblemOf(ws)), trail) && Bounded(old(ProblemOf(ws)), trail)
  {
    hide Linked, Counted, Tallied, OnSeat, ValidInfo, Untouched;
    var planner := new Planner(ws);
    planner.Visit(Some(ws.cat.goal), TheGoal, {});
    trail := planner.trail;
    SearchBounded(planner.problem, trail);
  }

  /** When the goal is not attainable in the end, then some candidate that was walked and is still
      selected has a dep without alternatives, or one with an alternative that was not taken because
      its seat had been changed to another candidate. */
  lemma FailureExplained(p: Problem, trail: seq<Walk>, net: Net, plan: Selection)
    requires ValidProblem(p) && Searched(p, trail) && plan == After(p, trail)
    requires net.seats == p.cat.seats && net.deps == p.deps && |net.seatOf| == |p.cat.info|
    requires forall c :: 0 <= c < |net.seatOf| ==> net.seatOf[c] == p.cat.info[c].seat
    requires ValidNet(net) && ValidSelection(net, plan) && p.cat.goal < |p.cat.info|
    requires !Attainable(net, plan, p.cat.info[p.cat.goal].seat)
    ensures Obstructed(p, trail)
  {
    var now := End(p, trail);
    GoalWalked(p, trail);
    ChangedWalked(p.cat, trail);
    if !Obstructed(p, trail) {
      forall s, d | s in now.walked && d in SeatDeps(net, plan, s) ensures Supported(net, plan, d, now.walked) {
        assert Chosen(p.cat, now.sel, plan[s]) && AllTried(p, now, plan[s]);
        assert !Blocks(p, now, d);
        var a :| a in d.alts && Settles(p, now, a);
        assert IsSelected(net, plan, a) && SeatOf(net, a) in now.walked;
      }
      assert SelfSupporting(net, plan, now.walked);
    }
  }

  /** Plan the installation of the goal. `plan` is the selection before what the goal
      does not need was reverted, where the trail of the search has led to. */
  method InstallNaively(ws: Workspace, seats: seq<Seat>, relevant: set<Seat>, initial: Selection)
    returns (res: bool, ghost plan: Selection, ghost trail: seq<Walk>)
    requires ws.Valid() && ValidConfig(ws.cat, initial)
    requires ws.cat.info[ws.cat.goal].seat in seats && forall s :: s in seats ==> s < ws.cat.seats
    modifies ws`selected, ws`nSelected, ws`nUnsatisfied
    ensures ws.Valid() && NetOf(ws) == old(NetOf(ws))
    ensures ValidProblem(old(ProblemOf(ws))) && Searched(old(ProblemOf(ws)), trail)
    ensures plan == After(old(ProblemOf(ws)), trail) && Bounded(old(ProblemOf(ws)), trail)
    ensures !res ==> Obstructed(old(ProblemOf(ws)), trail)
    ensures |plan| == ws.cat.seats
    ensures forall s :: 0 <= s < |plan| ==> ws.selected[s] == plan[s] || ws.selected[s] == initial[s]
    ensures res <==> Attainable(NetOf(ws), plan, ws.cat.info[ws.cat.goal].seat)
    ensures res && Chosen(ws.cat, plan, ws.cat.goal) ==>
      Chosen(ws.cat, ws.selected, ws.cat.goal) && Attainable(NetOf(ws), ws.selected, ws.cat.info[ws.cat.goal].seat)
  {
    hide Linked, Counted, Tallied, Attainable, OnSeat, ValidInfo, ValidNet, Greatest, SelfSupporting, Leads;
    hide MarksSuffice, OkSeats, Searched, After, ValidProblem, Bounded, Obstructed;
    ghost var problem := ProblemOf(ws);
    var goal := ws.cat.goal;
    trail := WalkGoal(ws);
    plan := ws.selected;
    NetValid(ws);
    ConfigSelection(ws, initial);
    var net := NetOf(ws);
    var ok, unused, marks, flags, needed := CleanupGoal(net, ws.selected, seats, relevant, goal);
    res := ok;
    if !res {
      FailureExplained(problem, trail, net, plan);
    }
    forall i | 0 <= i < |unused| ensures unused[i] < ws.cat.seats {
      assert unused[i] in Unneeded(seats, needed);
    }
    Revert(ws, initial, unused);
    GoalKept(net, plan, initial, seats, flags, needed, goal, res);
  }

  lemma GoalKept(net: Net, plan: Selection, initial: Selection, seats: seq<Seat>, ok: set<Seat>, needed: set<Seat>,
                 goal: Cand, res: bool)
    requires ValidNet(net) && ValidSelection(net, plan) && |initial| == |plan| && goal < |net.seatOf|
    requires ValidSelection(net, initial)
    requires forall w :: w in needed <==> IsSelected(net, plan, goal) && Leads(net, plan, ok, SeatOf(net, goal), w)
    requires res ==> SelfSupporting(net, plan, needed)
    ensures var sel := Reverted(net, plan, initial, Unneeded(seats, needed));
      res && IsSelected(net, plan, goal) ==> IsSelected(net, sel, goal) && Attainable(net, sel, SeatOf(net, goal))
  {
    if res && IsSelected(net, plan, goal) {
      assert Leads(net, plan, ok, SeatOf(net, goal), SeatOf(net, goal));
      RevertKeepsGoal(net, plan, initial, seats, needed);
    }
  }
}
