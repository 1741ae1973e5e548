/** The search for a plan as a value: which candidates it selects and walks, in order,
    and why each of them. */
module Searches {
  import opened Basics
  import opened Network
  import opened Versions
  import opened Catalogs
  import opened Workspaces

  /** The candidates with their deps, and what was selected at the start. */
  datatype Problem = Problem(cat: Catalog, deps: seq<seq<Dep>>, start: Selection)

  ghost predicate ValidProblem(p: Problem) {
    && |p.deps| == |p.cat.info| && |p.start| == p.cat.seats
    && (forall c :: 0 <= c < |p.cat.info| ==> p.cat.info[c].seat < p.cat.seats)
    && (forall c, d :: 0 <= c < |p.deps| && d in p.deps[c] ==> AltsAre(p.cat, d.alts))
  }

  /* Choosing an alternative. */

  /** Of those on a seat, the one at place `i` has the greatest version, and is the first that has it;
      if none has a version, it is the last. */
  ghost predicate PickedAt(cat: Catalog, seen: seq<Cand>, seat: Seat, i: nat)
    requires AltsAre(cat, seen)
  {
    && i < |seen| && cat.info[seen[i]].seat == seat
    && forall j :: 0 <= j < |seen| && cat.info[seen[j]].seat == seat ==>
      var (v, w) := (cat.info[seen[j]].version, cat.info[seen[i]].version);
      if v.Some? then w.Some? && VersionOrder(Chars(v.value), Chars(w.value)) <= (if j < i then -1 else 0)
      else w.None? ==> j <= i
  }

  /** An alternative on the seat of the first one, picked from those among `seen`. */
  ghost predicate Newest(cat: Catalog, alts: seq<Cand>, seen: seq<Cand>, c: Cand)
    requires AltsAre(cat, alts) && alts != [] && AltsAre(cat, seen)
  {
    c in alts && exists i: nat :: PickedAt(cat, seen, cat.info[alts[0]].seat, i) && seen[i] == c
  }

  /** A candidate with a version on a seat. */
  predicate Offers(cat: Catalog, c: Cand, seat: Seat) {
    c < |cat.info| && cat.info[c].seat == seat && cat.info[c].version.Some?
  }

  function TextOf(cat: Catalog, c: Cand): string
    requires c < |cat.info| && cat.info[c].version.Some?
  {
    Chars(cat.info[c].version.value)
  }

  /** The candidate is on the seat of the first alternative, and no alternative there has a greater version. */
  ghost predicate NoneNewer(cat: Catalog, alts: seq<Cand>, c: Cand)
    requires AltsAre(cat, alts) && alts != []
  {
    && c < |cat.info| && cat.info[c].seat == cat.info[alts[0]].seat
    && forall j :: 0 <= j < |alts| && Offers(cat, alts[j], cat.info[c].seat) ==>
      cat.info[c].version.Some? && VersionOrder(TextOf(cat, alts[j]), TextOf(cat, c)) <= 0
  }

  /** Those there that come before it have smaller versions. */
  ghost predicate OlderBefore(cat: Catalog, alts: seq<Cand>, c: Cand)
    requires AltsAre(cat, alts) && c < |cat.info|
  {
    exists i :: 0 <= i < |alts| && alts[i] == c &&
      forall j :: 0 <= j < i && Offers(cat, alts[j], cat.info[c].seat) ==>
        cat.info[c].version.Some? && VersionOrder(TextOf(cat, alts[j]), TextOf(cat, c)) < 0
  }

  lemma NewestMeans(cat: Catalog, alts: seq<Cand>, c: Cand)
    requires AltsAre(cat, alts) && alts != [] && Newest(cat, alts, alts, c)
    ensures NoneNewer(cat, alts, c) && OlderBefore(cat, alts, c)
  {
    hide VersionOrder, Ends, Plain;
    var i: nat :| PickedAt(cat, alts, cat.info[alts[0]].seat, i) && alts[i] == c;
  }

  /** One more candidate: it takes the place of one without version, or with a lesser one. */
  lemma PickStep(cat: Catalog, seen: seq<Cand>, seat: Seat, i: nat, c: Cand)
    requires AltsAre(cat, seen) && c < |cat.info| && PickedAt(cat, seen, seat, i)
    ensures AltsAre(cat, seen + [c])
    ensures var (v, w) := (cat.info[c].version, cat.info[seen[i]].version);
      var takes := cat.info[c].seat == seat &&
        (w.None? || (v.Some? && VersionOrder(Chars(v.value), Chars(w.value)) > 0));
      PickedAt(cat, seen + [c], seat, if takes then |seen| else i)
  {
    hide VersionOrder, Ends, Plain;
    var all, b := seen + [c], seen[i];
    forall j | 0 <= j < |all| && cat.info[all[j]].version.Some?
      ensures j < |seen| ==> all[j] == seen[j]
      ensures cat.info[b].version.Some? && cat.info[c].version.Some? ==>
        var (u, v, w) := (Chars(cat.info[all[j]].version.value), Chars(cat.info[c].version.value),
                          Chars(cat.info[b].version.value));
        && (VersionOrder(u, w) <= 0 && VersionOrder(v, w) > 0 ==> VersionOrder(u, v) <= -1)
        && VersionOrder(v, v) == 0
    {
      if cat.info[b].version.Some? && cat.info[c].version.Some? {
        var (u, v, w) := (Chars(cat.info[all[j]].version.value), Chars(cat.info[c].version.value),
                          Chars(cat.info[b].version.value));
        VersionOrderTotal(v, w);
        VersionOrderTotal(v, v);
        VersionOrderTotal(u, v);
        if VersionOrder(u, w) <= 0 && VersionOrder(v, w) > 0 {
          VersionOrderTransitive(u, w, v);
        }
      }
    }
    if cat.info[c].version.Some? {
      VersionOrderTotal(Chars(cat.info[c].version.value), Chars(cat.info[c].version.value));
    }
  }

  lemma PickFirst(cat: Catalog, c: Cand)
    requires c < |cat.info|
    ensures AltsAre(cat, [c]) && PickedAt(cat, [c], cat.info[c].seat, 0)
  {
    hide VersionOrder, Ends, Plain;
    if cat.info[c].version.Some? {
      VersionOrderTotal(Chars(cat.info[c].version.value), Chars(cat.info[c].version.value));
    }
  }

  /** An alternative that can be used as things are: selected, and with all its deps satisfied. */
  ghost predicate Usable(cat: Catalog, deps: seq<seq<Dep>>, sel: Selection, acceptUgly: bool, a: Cand)
    requires a < |cat.info| == |deps|
  {
    && Chosen(cat, sel, a) && (acceptUgly || a != cat.ugly)
    && forall d :: d in deps[a] ==> HoldsIn(cat, sel, d)
  }

  ghost predicate FirstUsable(cat: Catalog, deps: seq<seq<Dep>>, sel: Selection, acceptUgly: bool, alts: seq<Cand>,
                              i: nat)
    requires AltsAre(cat, alts) && i < |alts| && |cat.info| == |deps|
  {
    && Usable(cat, deps, sel, acceptUgly, alts[i])
    && forall k :: 0 <= k < i ==> !Usable(cat, deps, sel, acceptUgly, alts[k])
  }

  /** The first usable alternative, or else the newest candidate of the seat of the
      first alternative. */
  ghost predicate IsBestAlt(cat: Catalog, deps: seq<seq<Dep>>, sel: Selection, acceptUgly: bool, alts: seq<Cand>,
                            best: Option<Cand>)
    requires AltsAre(cat, alts) && |cat.info| == |deps|
  {
    if exists i :: 0 <= i < |alts| && FirstUsable(cat, deps, sel, acceptUgly, alts, i)
    then exists i :: 0 <= i < |alts| && FirstUsable(cat, deps, sel, acceptUgly, alts, i) && best == Some(alts[i])
    else if alts == [] then best == None
    else best.Some? && Newest(cat, alts, alts, best.value)
  }

  lemma BestInside(cat: Catalog, deps: seq<seq<Dep>>, sel: Selection, acceptUgly: bool, alts: seq<Cand>,
                   best: Option<Cand>)
    requires AltsAre(cat, alts) && |cat.info| == |deps| && IsBestAlt(cat, deps, sel, acceptUgly, alts, best)
    ensures if best.None? then alts == [] else best.value in alts && best.value < |cat.info|
  {
  }

  /** A candidate that is chosen but not yet selected is a newest one, and nothing else was usable. */
  lemma BestUnchosen(cat: Catalog, deps: seq<seq<Dep>>, sel: Selection, acceptUgly: bool, alts: seq<Cand>, best: Cand)
    requires AltsAre(cat, alts) && |cat.info| == |deps| && IsBestAlt(cat, deps, sel, acceptUgly, alts, Some(best))
    requires best < |cat.info| && !Chosen(cat, sel, best)
    ensures alts != [] && Newest(cat, alts, alts, best)
    ensures forall i :: 0 <= i < |alts| ==> !Usable(cat, deps, sel, acceptUgly, alts[i])
  {
    hide Newest;
    if i :| 0 <= i < |alts| && Usable(cat, deps, sel, acceptUgly, alts[i]) {
      var k := FirstOf(cat, deps, sel, acceptUgly, alts, i);
    }
  }

  lemma {:induction false} FirstOf(cat: Catalog, deps: seq<seq<Dep>>, sel: Selection, acceptUgly: bool,
                                   alts: seq<Cand>, i: nat) returns (k: nat)
    requires AltsAre(cat, alts) && |cat.info| == |deps| && i < |alts| && Usable(cat, deps, sel, acceptUgly, alts[i])
    ensures k <= i && FirstUsable(cat, deps, sel, acceptUgly, alts, k)
  {
    k := i;
    if j :| 0 <= j < i && Usable(cat, deps, sel, acceptUgly, alts[j]) {
      k := FirstOf(cat, deps, sel, acceptUgly, alts, j);
    }
  }

  /* The trail of the search. */

  datatype Reason = TheGoal | Dependency(parent: Cand, dep: Dep)

  /** A candidate whose deps are walked, why, and what was selected when it was considered.
      If that is another candidate then this one gets selected first. */
  datatype Walk = Walk(cand: Cand, why: Reason, before: Selection)

  function SeatAt(cat: Catalog, c: Cand): Seat {
    if c < |cat.info| then cat.info[c].seat else 0
  }

  predicate IsChosen(cat: Catalog, sel: Selection, c: Cand) {
    c < |cat.info| && Chosen(cat, sel, c)
  }

  /** The selection after the last walk has begun. */
  function After(p: Problem, trail: seq<Walk>): Selection {
    if trail == [] then p.start
    else
      var w := trail[|trail| - 1];
      var s := SeatAt(p.cat, w.cand);
      if s < |w.before| then w.before[s := w.cand] else w.before
  }

  function WalkedSeats(cat: Catalog, trail: seq<Walk>): set<Seat> {
    if trail == [] then {} else WalkedSeats(cat, trail[..|trail| - 1]) + {SeatAt(cat, trail[|trail| - 1].cand)}
  }

  /** The seats that got another candidate. */
  function ChangedSeats(cat: Catalog, trail: seq<Walk>): set<Seat> {
    if trail == [] then {}
    else
      var w := trail[|trail| - 1];
      ChangedSeats(cat, trail[..|trail| - 1]) +
        if IsChosen(cat, w.before, w.cand) then {} else {SeatAt(cat, w.cand)}
  }

  /** The ugly candidate is good enough for a candidate that the search has not selected itself. */
  predicate AcceptsUgly(p: Problem, trail: seq<Walk>, parent: Cand) {
    SeatAt(p.cat, parent) !in ChangedSeats(p.cat, trail)
  }

  /** Why a candidate is considered after some walks: it is the goal, with which the search starts;
      or it is the best alternative for a dep of a selected candidate on the trail. */
  ghost predicate Proposed(p: Problem, trail: seq<Walk>, why: Reason, c: Cand)
    requires ValidProblem(p)
  {
    match why
    case TheGoal => trail == [] && c == p.cat.goal
    case Dependency(parent, d) =>
      && parent < |p.deps| && d in p.deps[parent] && Chosen(p.cat, After(p, trail), parent)
      && OnTrail(trail, parent)
      && IsBestAlt(p.cat, p.deps, After(p, trail), AcceptsUgly(p, trail, parent), d.alts, Some(c))
  }

  predicate OnTrail(trail: seq<Walk>, c: Cand) {
    exists i :: 0 <= i < |trail| && trail[i].cand == c
  }

  /** A selected candidate is walked unless its seat was walked before, another one is selected
      and walked unless its seat was changed before. */
  ghost predicate MayWalk(p: Problem, trail: seq<Walk>, c: Cand) {
    if IsChosen(p.cat, After(p, trail), c) then SeatAt(p.cat, c) !in WalkedSeats(p.cat, trail)
    else SeatAt(p.cat, c) !in ChangedSeats(p.cat, trail)
  }

  ghost predicate ValidTrail(p: Problem, trail: seq<Walk>)
    requires ValidProblem(p)
    decreases |trail|
  {
    trail == [] ||
    var w, prefix := trail[|trail| - 1], trail[..|trail| - 1];
    && ValidTrail(p, prefix) && w.cand < |p.cat.info| && w.before == After(p, prefix)
    && MayWalk(p, prefix, w.cand) && Proposed(p, prefix, w.why, w.cand)
  }

  lemma TrailStep(p: Problem, trail: seq<Walk>, c: Cand, why: Reason)
    requires ValidProblem(p) && ValidTrail(p, trail) && c < |p.cat.info|
    requires MayWalk(p, trail, c) && Proposed(p, trail, why, c)
    ensures var sel, s := After(p, trail), SeatAt(p.cat, c); var trail' := trail + [Walk(c, why, sel)];
      && ValidTrail(p, trail') && OnTrail(trail', c)
      && After(p, trail') == (if s < |sel| then sel[s := c] else sel)
      && WalkedSeats(p.cat, trail') == WalkedSeats(p.cat, trail) + {s}
      && ChangedSeats(p.cat, trail') == ChangedSeats(p.cat, trail) + if IsChosen(p.cat, sel, c) then {} else {s}
  {
    hide Proposed, MayWalk, IsChosen, ValidProblem, SeatAt;
    var trail' := trail + [Walk(c, why, After(p, trail))];
    assert trail'[..|trail'| - 1] == trail && trail'[|trail|].cand == c;
  }

  lemma OnTrailGrows(trail: seq<Walk>, trail': seq<Walk>, c: Cand)
    requires OnTrail(trail, c) && trail <= trail'
    ensures OnTrail(trail', c)
  {
    var i :| 0 <= i < |trail| && trail[i].cand == c;
    assert trail'[i].cand == c;
  }

  /** Each walk of a trail was valid when it began. */
  lemma {:induction false} TrailAt(p: Problem, trail: seq<Walk>, i: nat)
    requires ValidProblem(p) && ValidTrail(p, trail) && i < |trail|
    ensures trail[i].cand < |p.cat.info| && trail[i].before == After(p, trail[..i])
    ensures MayWalk(p, trail[..i], trail[i].cand) && Proposed(p, trail[..i], trail[i].why, trail[i].cand)
    decreases |trail|
  {
    if i < |trail| - 1 {
      TrailAt(p, trail[..|trail| - 1], i);
      assert trail[..|trail| - 1][..i] == trail[..i];
    } else {
      assert trail[..i] == trail[..|trail| - 1];
    }
  }

  function Walks(cat: Catalog, trail: seq<Walk>, s: Seat): nat {
    if trail == [] then 0
    else Walks(cat, trail[..|trail| - 1], s) + if SeatAt(cat, trail[|trail| - 1].cand) == s then 1 else 0
  }

  function Changes(cat: Catalog, trail: seq<Walk>, s: Seat): nat {
    if trail == [] then 0
    else
      var w := trail[|trail| - 1];
      Changes(cat, trail[..|trail| - 1], s) +
        if SeatAt(cat, w.cand) == s && !IsChosen(cat, w.before, w.cand) then 1 else 0
  }

  /** A seat is walked at most twice, and changed at most once. */
  lemma {:induction false} TrailBounds(p: Problem, trail: seq<Walk>, s: Seat)
    requires ValidProblem(p) && ValidTrail(p, trail)
    ensures Changes(p.cat, trail, s) == if s in ChangedSeats(p.cat, trail) then 1 else 0
    ensures Walks(p.cat, trail, s) <= Changes(p.cat, trail, s) + if s in WalkedSeats(p.cat, trail) then 1 else 0
    decreases |trail|
  {
    hide Proposed;
    if trail != [] {
      TrailBounds(p, trail[..|trail| - 1], s);
    }
  }

  /** A seat that was not changed keeps its candidate. One that was has a candidate that a single
      walk selected for it, and keeps that to the end. */
  lemma {:induction false} TrailSelects(p: Problem, trail: seq<Walk>, s: Seat)
    requires ValidProblem(p) && ValidTrail(p, trail) && s < p.cat.seats
    ensures |After(p, trail)| == p.cat.seats
    ensures s !in ChangedSeats(p.cat, trail) ==> After(p, trail)[s] == p.start[s]
    ensures s in ChangedSeats(p.cat, trail) ==>
      exists i :: 0 <= i < |trail| && Selects(p, trail[i], s, After(p, trail)[s])
    decreases |trail|
  {
    hide Proposed;
    if trail != [] {
      var prefix, w := trail[..|trail| - 1], trail[|trail| - 1];
      TrailSelects(p, prefix, s);
      if s in ChangedSeats(p.cat, trail) {
        if s in ChangedSeats(p.cat, prefix) {
          var i :| 0 <= i < |prefix| && Selects(p, prefix[i], s, After(p, prefix)[s]);
          assert trail[i] == prefix[i];
        } else {
          assert Selects(p, trail[|trail| - 1], s, After(p, trail)[s]);
        }
      }
    }
  }

  /** The walk selected a candidate for a seat, which had another one. */
  predicate Selects(p: Problem, w: Walk, s: Seat, c: Cand) {
    w.cand == c && SeatAt(p.cat, c) == s && !IsChosen(p.cat, w.before, c)
  }

  lemma {:induction false} ChangedWalked(cat: Catalog, trail: seq<Walk>)
    ensures ChangedSeats(cat, trail) <= WalkedSeats(cat, trail)
  {
    if trail != [] {
      ChangedWalked(cat, trail[..|trail| - 1]);
    }
  }

  /** Why a seat was changed: for the goal itself, or for a dep without usable alternative of a
      candidate on the trail, which then gets the newest candidate of its first seat. */
  ghost predicate Explained(p: Problem, trail: seq<Walk>, i: nat)
    requires ValidProblem(p) && i < |trail|
  {
    match trail[i].why
    case TheGoal => i == 0 && trail[i].cand == p.cat.goal
    case Dependency(parent, d) =>
      && parent < |p.deps| && d in p.deps[parent] && OnTrail(trail[..i], parent) && d.alts != []
      && Newest(p.cat, d.alts, d.alts, trail[i].cand)
      && NoneNewer(p.cat, d.alts, trail[i].cand) && OlderBefore(p.cat, d.alts, trail[i].cand)
      && forall k :: 0 <= k < |d.alts| ==>
        !Usable(p.cat, p.deps, trail[i].before, AcceptsUgly(p, trail[..i], parent), d.alts[k])
  }

  lemma ChangeExplained(p: Problem, trail: seq<Walk>, s: Seat)
    requires ValidProblem(p) && ValidTrail(p, trail) && s < p.cat.seats && s in ChangedSeats(p.cat, trail)
    ensures |After(p, trail)| == p.cat.seats
    ensures exists i :: 0 <= i < |trail| && Selects(p, trail[i], s, After(p, trail)[s]) && Explained(p, trail, i)
  {
    hide Newest, IsBestAlt;
    TrailSelects(p, trail, s);
    var i :| 0 <= i < |trail| && Selects(p, trail[i], s, After(p, trail)[s]);
    TrailAt(p, trail, i);
    var w := trail[i];
    if w.why.Dependency? {
      BestUnchosen(p.cat, p.deps, w.before, AcceptsUgly(p, trail[..i], w.why.parent), w.why.dep.alts, w.cand);
      NewestMeans(p.cat, w.why.dep.alts, w.cand);
    }
    assert Explained(p, trail, i);
  }

  /** The search itself has selected the candidate. */
  ghost predicate Picked(p: Problem, trail: seq<Walk>, c: Cand) {
    exists j :: 0 <= j < |trail| && Selects(p, trail[j], SeatAt(p.cat, c), c)
  }

  lemma {:induction false} SelectsChanges(p: Problem, trail: seq<Walk>, j: nat, s: Seat, c: Cand)
    requires j < |trail| && Selects(p, trail[j], s, c)
    ensures s in ChangedSeats(p.cat, trail)
    decreases |trail|
  {
    if j < |trail| - 1 {
      SelectsChanges(p, trail[..|trail| - 1], j, s, c);
    }
  }

  lemma PickedIs(p: Problem, trail: seq<Walk>, c: Cand)
    requires ValidProblem(p) && ValidTrail(p, trail) && c < |p.cat.info| && Chosen(p.cat, After(p, trail), c)
    ensures AcceptsUgly(p, trail, c) <==> !Picked(p, trail, c)
  {
    hide ChangedSeats, After, ValidTrail;
    var s := SeatAt(p.cat, c);
    TrailSelects(p, trail, s);
    if j :| 0 <= j < |trail| && Selects(p, trail[j], s, c) {
      SelectsChanges(p, trail, j, s, c);
    }
  }

  /** The alternative is selected, and so is an alternative of each of its deps. */
  ghost predicate InUse(p: Problem, sel: Selection, a: Cand)
    requires |p.deps| == |p.cat.info|
  {
    IsChosen(p.cat, sel, a) && forall d :: d in p.deps[a] ==> exists b :: b in d.alts && IsChosen(p.cat, sel, b)
  }

  /** Fit to be left as it is; the ugly candidate is not for a candidate that the search selected. */
  ghost predicate Fit(p: Problem, trail: seq<Walk>, sel: Selection, parent: Cand, a: Cand)
    requires |p.deps| == |p.cat.info|
  {
    InUse(p, sel, a) && (Picked(p, trail, parent) ==> a != p.cat.ugly)
  }

  ghost predicate FirstFit(p: Problem, trail: seq<Walk>, sel: Selection, parent: Cand, alts: seq<Cand>, c: Cand)
    requires |p.deps| == |p.cat.info|
  {
    exists k :: 0 <= k < |alts| && alts[k] == c && Fit(p, trail, sel, parent, c) &&
      forall j :: 0 <= j < k ==> !Fit(p, trail, sel, parent, alts[j])
  }

  /** Which alternative of a dep is walked: the first one that is fit, if there is any, else the first of
      those of the seat of the first alternative that have the greatest version there is. */
  lemma BestMeans(p: Problem, trail: seq<Walk>, i: nat)
    requires ValidProblem(p) && ValidTrail(p, trail) && i < |trail| && trail[i].why.Dependency?
    ensures AltsAre(p.cat, trail[i].why.dep.alts) && trail[i].why.dep.alts != [] && trail[i].cand < |p.cat.info|
    ensures var (parent, alts) := (trail[i].why.parent, trail[i].why.dep.alts);
      if exists k :: 0 <= k < |alts| && Fit(p, trail[..i], trail[i].before, parent, alts[k])
      then FirstFit(p, trail[..i], trail[i].before, parent, alts, trail[i].cand)
      else NoneNewer(p.cat, alts, trail[i].cand) && OlderBefore(p.cat, alts, trail[i].cand)
  {
    hide Newest, NoneNewer, OlderBefore, ChangedSeats, After, ValidTrail;
    TrailPrefix(p, trail, i);
    TrailAt(p, trail, i);
    var sel, parent, alts := trail[i].before, trail[i].why.parent, trail[i].why.dep.alts;
    var ugly := AcceptsUgly(p, trail[..i], parent);
    PickedIs(p, trail[..i], parent);
    forall k | 0 <= k < |alts|
      ensures Usable(p.cat, p.deps, sel, ugly, alts[k]) <==> Fit(p, trail[..i], sel, parent, alts[k])
    {
      UsableIsFit(p, trail[..i], sel, parent, ugly, alts[k]);
    }
    if k :| 0 <= k < |alts| && Fit(p, trail[..i], sel, parent, alts[k]) {
      var m := FirstOf(p.cat, p.deps, sel, ugly, alts, k);
    } else if alts != [] {
      NewestMeans(p.cat, alts, trail[i].cand);
    }
  }

  lemma UsableIsFit(p: Problem, trail: seq<Walk>, sel: Selection, parent: Cand, ugly: bool, a: Cand)
    requires ValidProblem(p) && a < |p.cat.info| && (ugly <==> !Picked(p, trail, parent))
    ensures Usable(p.cat, p.deps, sel, ugly, a) <==> Fit(p, trail, sel, parent, a)
  {
    hide Picked;
    forall d | d in p.deps[a]
      ensures HoldsIn(p.cat, sel, d) <==> exists b :: b in d.alts && IsChosen(p.cat, sel, b)
    {
    }
  }

  lemma {:induction false} TrailPrefix(p: Problem, trail: seq<Walk>, i: nat)
    requires ValidProblem(p) && ValidTrail(p, trail) && i <= |trail|
    ensures ValidTrail(p, trail[..i])
    decreases |trail|
  {
    hide Proposed, MayWalk;
    if i < |trail| {
      TrailPrefix(p, trail[..|trail| - 1], i);
      assert trail[..|trail| - 1][..i] == trail[..i];
    } else {
      assert trail[..i] == trail;
    }
  }

  /* What the search leaves behind. */

  /** What is selected, and which seats were walked and changed so far. */
  datatype Position = Position(sel: Selection, walked: set<Seat>, changed: set<Seat>)

  /** Where a trail has led to. */
  function End(p: Problem, trail: seq<Walk>): Position {
    Position(After(p, trail), WalkedSeats(p.cat, trail), ChangedSeats(p.cat, trail))
  }

  /** Only seats that were not changed before may change, and these count as changed. */
  ghost predicate Kept(a: Position, b: Position) {
    && a.walked <= b.walked && a.changed <= b.changed && |a.sel| == |b.sel|
    && forall s: nat :: s < |a.sel| ==> (a.sel[s] == b.sel[s] <==> s in a.changed || s !in b.changed)
  }

  lemma KeptTrans(a: Position, b: Position, c: Position)
    requires Kept(a, b) && Kept(b, c)
    ensures Kept(a, c)
  {
  }

  /** A seat that still has its candidate was changed before, or was not changed at all. */
  lemma KeptAt(a: Position, b: Position, s: Seat)
    requires Kept(a, b) && s < |a.sel|
    ensures |b.sel| == |a.sel| && a.changed <= b.changed && a.walked <= b.walked
    ensures a.sel[s] == b.sel[s] <==> s in a.changed || s !in b.changed
  {
  }

  /** Some alternative is selected on a seat that was walked, or its seat was changed. */
  ghost predicate Tried(p: Problem, now: Position, d: Dep) {
    d.alts == [] || exists a :: a in d.alts && Settles(p, now, a)
  }

  predicate Settles(p: Problem, now: Position, a: Cand) {
    a < |p.cat.info| && (p.cat.info[a].seat in now.changed ||
                         (Chosen(p.cat, now.sel, a) && p.cat.info[a].seat in now.walked))
  }

  ghost predicate AllTried(p: Problem, now: Position, c: Cand) {
    c < |p.deps| && forall d :: d in p.deps[c] ==> Tried(p, now, d)
  }

  /** All deps of the selected candidates of walked seats were tried, but for those of `open`. */
  ghost predicate ExploredBut(p: Problem, now: Position, open: set<Cand>) {
    forall c :: 0 <= c < |p.cat.info| && Chosen(p.cat, now.sel, c) && p.cat.info[c].seat in now.walked && c !in open ==>
      AllTried(p, now, c)
  }

  lemma SettlesStays(p: Problem, a: Position, b: Position, c: Cand)
    requires Kept(a, b) && Settles(p, a, c)
    ensures Settles(p, b, c)
  {
  }

  lemma TriedStays(p: Problem, a: Position, b: Position, d: Dep)
    requires Kept(a, b) && Tried(p, a, d)
    ensures Tried(p, b, d)
  {
    hide Kept, Settles;
    if d.alts != [] {
      var x :| x in d.alts && Settles(p, a, x);
      SettlesStays(p, a, b, x);
    }
  }

  /** The first `n` deps of a candidate were tried. */
  ghost predicate TriedUpTo(p: Problem, now: Position, c: Cand, n: nat) {
    c < |p.deps| && n <= |p.deps[c]| && forall k :: 0 <= k < n ==> Tried(p, now, p.deps[c][k])
  }

  lemma TriedNone(p: Problem, now: Position, c: Cand)
    requires c < |p.deps|
    ensures TriedUpTo(p, now, c, 0)
  {
  }

  lemma TriedNext(p: Problem, a: Position, b: Position, c: Cand, n: nat)
    requires TriedUpTo(p, a, c, n) && Kept(a, b) && n < |p.deps[c]| && Tried(p, b, p.deps[c][n])
    ensures TriedUpTo(p, b, c, n + 1)
  {
    hide Kept, Tried;
    forall k | 0 <= k < n ensures Tried(p, b, p.deps[c][k]) {
      TriedStays(p, a, b, p.deps[c][k]);
    }
  }

  lemma TriedEnough(p: Problem, now: Position, c: Cand, n: nat)
    requires TriedUpTo(p, now, c, n) && n == |p.deps[c]|
    ensures AllTried(p, now, c)
  {
    hide Tried;
  }

  /** The walk of `c` begins. */
  lemma ExploredOpens(p: Problem, a: Position, b: Position, c: Cand, open: set<Cand>)
    requires ExploredBut(p, a, open) && Kept(a, b) && IsChosen(p.cat, b.sel, c)
    requires forall s: nat :: s < |a.sel| && s != SeatAt(p.cat, c) ==> b.sel[s] == a.sel[s]
    requires b.walked == a.walked + {SeatAt(p.cat, c)}
    ensures ExploredBut(p, b, open + {c})
  {
    hide Tried;
    forall x | 0 <= x < |p.cat.info| && Chosen(p.cat, b.sel, x) && p.cat.info[x].seat in b.walked && x !in open + {c}
      ensures AllTried(p, b, x)
    {
      assert p.cat.info[x].seat != SeatAt(p.cat, c);
      assert AllTried(p, a, x);
      forall d | d in p.deps[x] ensures Tried(p, b, d) {
        TriedStays(p, a, b, d);
      }
    }
  }

  /** The walk of `c` ends. */
  lemma ExploredCloses(p: Problem, now: Position, c: Cand, open: set<Cand>)
    requires ExploredBut(p, now, open + {c}) && (IsChosen(p.cat, now.sel, c) ==> AllTried(p, now, c))
    ensures ExploredBut(p, now, open)
  {
    hide AllTried;
  }

  /** The search started with the goal, every choice on its trail was valid, and all deps of the
      selected candidates of walked seats were tried. */
  ghost predicate Searched(p: Problem, trail: seq<Walk>)
    requires ValidProblem(p)
  {
    && ValidTrail(p, trail) && [Walk(p.cat.goal, TheGoal, p.start)] <= trail
    && ExploredBut(p, End(p, trail), {})
  }

  lemma {:induction false} GoalWalked(p: Problem, trail: seq<Walk>)
    requires trail != [] && trail[0].cand == p.cat.goal
    ensures SeatAt(p.cat, p.cat.goal) in WalkedSeats(p.cat, trail)
  {
    if |trail| > 1 {
      GoalWalked(p, trail[..|trail| - 1]);
    }
  }

  /** No seat is walked more than twice; one that was changed was changed once, others keep their
      candidate; and the goal gets selected if it was not. */
  ghost predicate Bounded(p: Problem, trail: seq<Walk>) {
    && (forall s :: Walks(p.cat, trail, s) <= 2)
    && (forall s :: Changes(p.cat, trail, s) == if s in ChangedSeats(p.cat, trail) then 1 else 0)
    && |After(p, trail)| == |p.start|
    && (forall s :: 0 <= s < |p.start| && s !in ChangedSeats(p.cat, trail) ==> After(p, trail)[s] == p.start[s])
    && (!IsChosen(p.cat, p.start, p.cat.goal) ==> IsChosen(p.cat, After(p, trail), p.cat.goal))
  }

  lemma SearchBounded(p: Problem, trail: seq<Walk>)
    requires ValidProblem(p) && Searched(p, trail)
    ensures Bounded(p, trail)
  {
    hide ExploredBut, ValidTrail, Changes, Walks, ChangedSeats, WalkedSeats, After;
    AfterSize(p, trail);
    forall s: nat
      ensures Walks(p.cat, trail, s) <= 2
      ensures Changes(p.cat, trail, s) == if s in ChangedSeats(p.cat, trail) then 1 else 0
      ensures s < |p.start| && s !in ChangedSeats(p.cat, trail) ==> After(p, trail)[s] == p.start[s]
    {
      TrailBounds(p, trail, s);
      if s < p.cat.seats {
        TrailSelects(p, trail, s);
      }
    }
    GoalSelected(p, trail);
  }

  lemma {:induction false} AfterSize(p: Problem, trail: seq<Walk>)
    requires ValidProblem(p) && ValidTrail(p, trail)
    ensures |After(p, trail)| == |p.start|
    decreases |trail|
  {
    if trail != [] {
      AfterSize(p, trail[..|trail| - 1]);
    }
  }

  /** A walk that found the goal not selected selects it for good. */
  lemma {:induction false} GoalSelected(p: Problem, trail: seq<Walk>)
    requires ValidProblem(p) && ValidTrail(p, trail) && [Walk(p.cat.goal, TheGoal, p.start)] <= trail
    ensures !IsChosen(p.cat, p.start, p.cat.goal) ==>
      IsChosen(p.cat, After(p, trail), p.cat.goal) && SeatAt(p.cat, p.cat.goal) in ChangedSeats(p.cat, trail)
    decreases |trail|
  {
    hide Proposed;
    if |trail| > 1 {
      GoalSelected(p, trail[..|trail| - 1]);
    }
  }

  /** No alternative at all, or one that could not be selected because its seat was changed before. */
  ghost predicate Blocks(p: Problem, now: Position, d: Dep) {
    d.alts == [] ||
    exists a :: a in d.alts && a < |p.cat.info| && p.cat.info[a].seat in now.changed && !Chosen(p.cat, now.sel, a)
  }

  ghost predicate Obstructed(p: Problem, trail: seq<Walk>)
    requires |p.deps| == |p.cat.info|
  {
    var now := End(p, trail);
    exists c, d :: 0 <= c < |p.cat.info| && d in p.deps[c] && Chosen(p.cat, now.sel, c)
      && p.cat.info[c].seat in now.walked && Blocks(p, now, d)
  }
}
