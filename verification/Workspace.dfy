/** The workspace: which candidate every seat has selected, all deps in both
    directions, and counters that tell at once whether a candidate is satisfied. */
module Workspaces {
  import opened Basics
  import opened Network
  import opened Catalogs
  import opened ReverseDeps
  import opened DepBuilders

  /** How many of the alternatives are selected. */
  function CountSelected(cat: Catalog, sel: Selection, alts: seq<Cand>): nat
    requires AltsAre(cat, alts)
  {
    if alts == [] then 0
    else CountSelected(cat, sel, alts[..|alts| - 1]) + if Chosen(cat, sel, alts[|alts| - 1]) then 1 else 0
  }

  /** How many of some deps have a count of zero. */
  function CountZero(ids: seq<nat>, counts: seq<int>): nat
    requires forall i :: 0 <= i < |ids| ==> ids[i] < |counts|
  {
    if ids == [] then 0
    else CountZero(ids[..|ids| - 1], counts) + if counts[ids[|ids| - 1]] == 0 then 1 else 0
  }

  lemma {:induction false} CountSelectedPositive(cat: Catalog, sel: Selection, alts: seq<Cand>)
    requires AltsAre(cat, alts)
    ensures CountSelected(cat, sel, alts) > 0 <==> exists a :: a in alts && a < |cat.info| && Chosen(cat, sel, a)
  {
    if alts != [] {
      CountSelectedPositive(cat, sel, alts[..|alts| - 1]);
      assert alts == alts[..|alts| - 1] + [alts[|alts| - 1]];
    }
  }

  lemma {:induction false} CountZeroNone(ids: seq<nat>, counts: seq<int>)
    requires forall i :: 0 <= i < |ids| ==> ids[i] < |counts|
    ensures CountZero(ids, counts) == 0 <==> forall i :: 0 <= i < |ids| ==> counts[ids[i]] != 0
  {
    if ids != [] {
      CountZeroNone(ids[..|ids| - 1], counts);
    }
  }

  /** Changing the selection of one seat moves the count from one candidate to another. */
  lemma {:induction false} CountMove(cat: Catalog, sel: Selection, s: Seat, c: Cand, alts: seq<Cand>)
    requires Distinct(alts) && AltsAre(cat, alts)
    requires s < |sel| && c < |cat.info| && cat.info[c].seat == s && sel[s] != c
    requires sel[s] < |cat.info| && cat.info[sel[s]].seat == s
    ensures CountSelected(cat, sel[s := c], alts) ==
      CountSelected(cat, sel, alts) - (if sel[s] in alts then 1 else 0) + (if c in alts then 1 else 0)
  {
    if alts != [] {
      var a := alts[|alts| - 1];
      CountMove(cat, sel, s, c, alts[..|alts| - 1]);
      assert alts == alts[..|alts| - 1] + [a];
      assert a !in alts[..|alts| - 1];
    }
  }

  /** Changing one count changes the number of zeros where the dep is listed. */
  lemma {:induction false} CountZeroSet(ids: seq<nat>, counts: seq<int>, d: nat, n: int)
    requires forall i :: 0 <= i < |ids| ==> ids[i] < |counts|
    requires Distinct(ids) && d < |counts|
    ensures CountZero(ids, counts[d := n]) ==
      CountZero(ids, counts) + (if d in ids then (if n == 0 then 1 else 0) - (if counts[d] == 0 then 1 else 0) else 0)
  {
    if ids != [] {
      var e := ids[|ids| - 1];
      CountZeroSet(ids[..|ids| - 1], counts, d, n);
      assert ids == ids[..|ids| - 1] + [e];
      assert e !in ids[..|ids| - 1];
    }
  }

  lemma {:induction false} CountZeroKeeps(ids: seq<nat>, counts: seq<int>, more: seq<int>)
    requires forall i :: 0 <= i < |ids| ==> ids[i] < |counts|
    ensures forall i :: 0 <= i < |ids| ==> ids[i] < |counts + more|
    ensures CountZero(ids, counts + more) == CountZero(ids, counts)
  {
    if ids != [] {
      CountZeroKeeps(ids[..|ids| - 1], counts, more);
    }
  }

  lemma {:induction false} CountZeroCons(d: nat, ids: seq<nat>, counts: seq<int>)
    requires d < |counts| && forall i :: 0 <= i < |ids| ==> ids[i] < |counts|
    ensures CountZero([d] + ids, counts) == CountZero(ids, counts) + if counts[d] == 0 then 1 else 0
  {
    if ids == [] {
      assert [d] + ids == [d] && [d][..0] == [];
      assert CountZero([], counts) == 0;
    } else {
      CountZeroCons(d, ids[..|ids| - 1], counts);
      assert ([d] + ids)[..|ids|] == [d] + ids[..|ids| - 1];
    }
  }

  /** The lists of deps: who owns a dep, and whose alternatives it lists. */
  ghost predicate Linked(cat: Catalog, deps: seq<Dep>, owner: seq<Cand>, depsOf: seq<seq<nat>>,
                         revdepsOf: seq<seq<nat>>) {
    && |owner| == |deps| && |depsOf| == |revdepsOf| == |cat.info|
    && (forall d :: 0 <= d < |deps| ==> owner[d] < |cat.info| && d in depsOf[owner[d]])
    && (forall d :: 0 <= d < |deps| ==> AltsOn(cat, deps[d]) && ListedBy(deps[d], d, revdepsOf))
    && (forall c :: 0 <= c < |depsOf| ==> Distinct(depsOf[c]) && Distinct(revdepsOf[c]))
    && (forall c, k :: 0 <= c < |depsOf| && 0 <= k < |depsOf[c]| ==> depsOf[c][k] < |deps| && owner[depsOf[c][k]] == c)
    && (forall c, k :: 0 <= c < |revdepsOf| && 0 <= k < |revdepsOf[c]| ==>
          revdepsOf[c][k] < |deps| && c in deps[revdepsOf[c][k]].alts)
  }

  predicate AltsAre(cat: Catalog, alts: seq<Cand>) {
    forall i :: 0 <= i < |alts| ==> alts[i] < |cat.info|
  }

  ghost predicate AltsOn(cat: Catalog, d: Dep) {
    Distinct(d.alts) && AltsAre(cat, d.alts)
  }

  ghost predicate ListedBy(dep: Dep, d: nat, revdepsOf: seq<seq<nat>>) {
    forall i :: 0 <= i < |dep.alts| ==> dep.alts[i] < |revdepsOf| && d in revdepsOf[dep.alts[i]]
  }

  /** The counters of unsatisfied deps agree with the counters of the deps. */
  ghost predicate Tallied(depsOf: seq<seq<nat>>, nSelected: seq<int>, nUnsatisfied: seq<int>) {
    && |nUnsatisfied| == |depsOf|
    && (forall c, k :: 0 <= c < |depsOf| && 0 <= k < |depsOf[c]| ==> depsOf[c][k] < |nSelected|)
    && (forall c :: 0 <= c < |depsOf| ==> nUnsatisfied[c] == CountZero(depsOf[c], nSelected))
  }

  ghost predicate Counted(cat: Catalog, sel: Selection, deps: seq<Dep>, nSelected: seq<int>)
  {
    |nSelected| == |deps| &&
    forall d :: 0 <= d < |deps| ==> AltsAre(cat, deps[d].alts) && nSelected[d] == CountSelected(cat, sel, deps[d].alts)
  }

  /** One counter changes, and with it the tally of its owner. */
  lemma TallyStep(cat: Catalog, deps: seq<Dep>, owner: seq<Cand>, depsOf: seq<seq<nat>>, revdepsOf: seq<seq<nat>>,
                  nSelected: seq<int>, nUnsatisfied: seq<int>, d: nat, n: int)
    requires Linked(cat, deps, owner, depsOf, revdepsOf) && Tallied(depsOf, nSelected, nUnsatisfied)
    requires |nSelected| == |deps| && d < |deps|
    ensures var delta := (if n == 0 then 1 else 0) - (if nSelected[d] == 0 then 1 else 0);
      Tallied(depsOf, nSelected[d := n],
              if delta == 0 then nUnsatisfied else nUnsatisfied[owner[d] := nUnsatisfied[owner[d]] + delta])
  {
    forall c | 0 <= c < |depsOf|
      ensures forall i :: 0 <= i < |depsOf[c]| ==> depsOf[c][i] < |nSelected|
      ensures CountZero(depsOf[c], nSelected[d := n]) == nUnsatisfied[c] +
        if c == owner[d] then (if n == 0 then 1 else 0) - (if nSelected[d] == 0 then 1 else 0) else 0
    {
      CountZeroSet(depsOf[c], nSelected, d, n);
    }
  }

  class Workspace {
    const cat: Catalog
    var selected: seq<Cand>
    var deps: seq<Dep>
    var owner: seq<Cand>
    var nSelected: seq<int>
    var depsOf: seq<seq<nat>>
    var revdepsOf: seq<seq<nat>>
    var nUnsatisfied: seq<int>

    ghost predicate Structured()
      reads this
    {
      && ValidCatalog(cat) && ValidConfig(cat, selected)
      && Linked(cat, deps, owner, depsOf, revdepsOf)
    }

    ghost predicate Valid()
      reads this
    {
      && Structured()
      && Counted(cat, selected, deps, nSelected) && Tallied(depsOf, nSelected, nUnsatisfied)
    }

    /** The deps of a candidate, in the order they are tried. */
    function DepsAt(c: Cand): seq<Dep>
      requires Structured() && c < |cat.info|
      reads this
    {
      DepList(deps, depsOf[c])
    }

    function AllDeps(): seq<seq<Dep>>
      requires Structured()
      reads this
    {
      seq(|cat.info|, c requires 0 <= c < |cat.info| reads this requires Structured() => DepsAt(c))
    }

    constructor (cat: Catalog, selected: seq<Cand>)
      requires ValidCatalog(cat) && ValidConfig(cat, selected)
      ensures Valid() && this.cat == cat && this.selected == selected
      ensures deps == [] && forall c :: 0 <= c < |cat.info| ==> depsOf[c] == []
    {
      this.cat, this.selected := cat, selected;
      deps, owner, nSelected := [], [], [];
      depsOf := seq(|cat.info|, _ => []);
      revdepsOf := seq(|cat.info|, _ => []);
      nUnsatisfied := seq(|cat.info|, _ => 0);
    }

    /** The deps that list a deselected candidate lose one selected alternative. */
    method Leave(was: Cand)
      requires Valid() && was < |cat.info| && Chosen(cat, selected, was)
      modifies this`nSelected, this`nUnsatisfied
      ensures Tallied(depsOf, nSelected, nUnsatisfied) && |nSelected| == |deps|
      ensures forall d: nat :: d < |deps| ==> nSelected[d] == old(nSelected[d]) - if was in deps[d].alts then 1 else 0
    {
      hide CountZero, CountSelected, Tallied, ValidCatalog, ValidConfig;
      TalliedLength(depsOf, nSelected, nUnsatisfied);
      ghost var base := nSelected;
      var revs := revdepsOf[was];
      for k := 0 to |revs|
        invariant Tallied(depsOf, nSelected, nUnsatisfied) && |nSelected| == |deps| && |nUnsatisfied| == |cat.info|
        invariant forall d: nat :: d < |deps| ==> nSelected[d] == base[d] - if d in revs[..k] then 1 else 0
      {
        var d := revs[k];
        assert AltsOn(cat, deps[d]) && d in revs && d !in revs[..k] && revs[..k + 1] == revs[..k] + [d];
        CountSelectedPositive(cat, selected, deps[d].alts);
        TallyStep(cat, deps, owner, depsOf, revdepsOf, nSelected, nUnsatisfied, d, nSelected[d] - 1);
        nSelected := nSelected[d := nSelected[d] - 1];
        if nSelected[d] == 0 {
          nUnsatisfied := nUnsatisfied[owner[d] := nUnsatisfied[owner[d]] + 1];
        }
      }
      RevListed(cat, deps, owner, depsOf, revdepsOf, was);
    }

    /** The deps that list a newly selected candidate gain one. */
    method Enter(c: Cand)
      requires Structured() && Tallied(depsOf, nSelected, nUnsatisfied) && |nSelected| == |deps| && c < |cat.info|
      requires forall d :: 0 <= d < |deps| ==> nSelected[d] >= 0
      modifies this`nSelected, this`nUnsatisfied
      ensures Tallied(depsOf, nSelected, nUnsatisfied) && |nSelected| == |deps|
      ensures forall d: nat :: d < |deps| ==> nSelected[d] == old(nSelected[d]) + if c in deps[d].alts then 1 else 0
    {
      hide CountZero, CountSelected, Tallied, ValidCatalog, ValidConfig;
      TalliedLength(depsOf, nSelected, nUnsatisfied);
      ghost var base := nSelected;
      var revs := revdepsOf[c];
      for k := 0 to |revs|
        invariant Tallied(depsOf, nSelected, nUnsatisfied) && |nSelected| == |deps| && |nUnsatisfied| == |cat.info|
        invariant forall d: nat :: d < |deps| ==> nSelected[d] == base[d] + if d in revs[..k] then 1 else 0
      {
        var d := revs[k];
        assert d in revs && d !in revs[..k] && revs[..k + 1] == revs[..k] + [d];
        TallyStep(cat, deps, owner, depsOf, revdepsOf, nSelected, nUnsatisfied, d, nSelected[d] + 1);
        if nSelected[d] == 0 {
          nUnsatisfied := nUnsatisfied[owner[d] := nUnsatisfied[owner[d]] - 1];
        }
        nSelected := nSelected[d := nSelected[d] + 1];
      }
      RevListed(cat, deps, owner, depsOf, revdepsOf, c);
    }

    /** A candidate is satisfied when each of its deps has a selected alternative. */
    predicate CandSatisfied(c: Cand)
      requires Valid() && c < |cat.info|
      reads this
      ensures CandSatisfied(c) <==> forall d :: d in DepsAt(c) ==> HoldsIn(cat, selected, d)
    {
      SatisfiedExactly(cat, selected, deps, owner, depsOf, revdepsOf, nSelected, nUnsatisfied, c);
      nUnsatisfied[c] == 0
    }

    /** How many alternatives of a dep are selected now. */
    method CountAlts(dep: Dep) returns (n: nat)
      requires Valid() && AltsOn(cat, dep)
      ensures n == CountSelected(cat, selected, dep.alts)
    {
      hide Linked, Counted, CountZero, Tallied, ValidCatalog;
      n := 0;
      for i := 0 to |dep.alts|
        invariant n == CountSelected(cat, selected, dep.alts[..i])
      {
        assert dep.alts[..i + 1][..i] == dep.alts[..i];
        if Chosen(cat, selected, dep.alts[i]) {
          n := n + 1;
        }
      }
      assert dep.alts[..|dep.alts|] == dep.alts;
    }

    /** Record a dep of a candidate: it comes first in the lists. */
    method AddDep(c: Cand, dep: Dep)
      requires Valid() && c < |cat.info| && AltsOn(cat, dep)
      modifies this
      ensures Valid() && selected == old(selected)
      ensures deps == old(deps) + [dep] && owner == old(owner) + [c]
      ensures depsOf == old(depsOf)[c := [|old(deps)|] + old(depsOf)[c]]
      ensures DepsAt(c) == [dep] + old(DepsAt(c))
      ensures forall b :: 0 <= b < |cat.info| && b != c ==> DepsAt(b) == old(DepsAt(b))
    {
      hide CountZero, Tallied, ValidCatalog;
      var id := |deps|;
      var n := CountAlts(dep);
      NewTally(depsOf, nSelected, nUnsatisfied, c, n, |cat.info|);
      nSelected := nSelected + [n];
      depsOf := depsOf[c := [id] + depsOf[c]];
      if n == 0 {
        nUnsatisfied := nUnsatisfied[c := nUnsatisfied[c] + 1];
      }
      deps, owner := deps + [dep], owner + [c];
      ghost var revs0 := revdepsOf;
      for i := 0 to |dep.alts|
        modifies this`revdepsOf
        invariant |revdepsOf| == |cat.info|
        invariant forall b :: 0 <= b < |cat.info| ==>
          revdepsOf[b] == (if b in dep.alts[..i] then [id] else []) + revs0[b]
      {
        var a := dep.alts[i];
        assert dep.alts[..i + 1] == dep.alts[..i] + [a];
        revdepsOf := revdepsOf[a := [id] + revdepsOf[a]];
      }
      NewLinks(cat, old(deps), old(owner), old(depsOf), revs0, dep, c, revdepsOf);
    }

    /** Record the dep that was built, unless it was killed. */
    method Finish(b: DepBuilder, c: Cand, rel: Option<RelType>, reversed: bool, reversedConflict: bool)
      requires Valid() && c < |cat.info| && b.Valid() && b.altSet.tags.Length <= |cat.info|
      modifies this
      ensures Valid() && selected == old(selected)
      ensures DepsAt(c) ==
        (if b.Current().Some? then [Dep(b.Current().value, rel, reversed, reversedConflict)] else []) + old(DepsAt(c))
      ensures forall a :: 0 <= a < |cat.info| && a != c ==> DepsAt(a) == old(DepsAt(a))
    {
      if b.nAlts >= 0 {
        assert forall i :: 0 <= i < |b.alts| ==> b.alts[i] in b.alts;
        AddDep(c, Dep(b.alts, rel, reversed, reversedConflict));
      }
    }

    method Select(c: Cand)
      requires Valid() && c < |cat.info|
      modifies this`selected, this`nSelected, this`nUnsatisfied
      ensures Valid() && selected == old(selected)[cat.info[c].seat := c]
    {
      hide CountZero, CountSelected, Tallied, Linked;
      var s := cat.info[c].seat;
      assert OnSeat(cat, selected[s], s) by {
        var k :| 0 <= k < |cat.members[s]| && cat.members[s][k] == selected[s];
      }
      if selected[s] == c {
        return;
      }
      ghost var before, base := selected, nSelected;
      CountsMove(cat, before, s, c, deps, owner, depsOf, revdepsOf, base);
      Leave(selected[s]);
      selected := selected[s := c];
      Enter(c);
    }
  }

  lemma SatisfiedExactly(cat: Catalog, sel: Selection, deps: seq<Dep>, owner: seq<Cand>, depsOf: seq<seq<nat>>,
                         revdepsOf: seq<seq<nat>>, nSelected: seq<int>, nUnsatisfied: seq<int>, c: Cand)
    requires Linked(cat, deps, owner, depsOf, revdepsOf) && Counted(cat, sel, deps, nSelected)
    requires Tallied(depsOf, nSelected, nUnsatisfied) && c < |cat.info|
    ensures nUnsatisfied[c] == 0 <==> forall d :: d in DepList(deps, depsOf[c]) ==> HoldsIn(cat, sel, d)
  {
    var ids := depsOf[c];
    CountZeroNone(ids, nSelected);
    forall i | 0 <= i < |ids| ensures nSelected[ids[i]] != 0 <==> HoldsIn(cat, sel, DepList(deps, ids)[i]) {
      CountSelectedPositive(cat, sel, deps[ids[i]].alts);
    }
  }

  /** A new dep at the head of the list of `c`, with its count at the end. */
  lemma NewTally(depsOf: seq<seq<nat>>, nSelected: seq<int>, nUnsatisfied: seq<int>, c: Cand, n: nat, size: nat)
    requires Tallied(depsOf, nSelected, nUnsatisfied) && c < |depsOf|
    ensures |nUnsatisfied| == |depsOf|
    ensures Tallied(depsOf[c := [|nSelected|] + depsOf[c]], nSelected + [n],
                    if n == 0 then nUnsatisfied[c := nUnsatisfied[c] + 1] else nUnsatisfied)
  {
    var after := depsOf[c := [|nSelected|] + depsOf[c]];
    forall b | 0 <= b < |depsOf|
      ensures forall k :: 0 <= k < |after[b]| ==> after[b][k] < |nSelected + [n]|
      ensures CountZero(after[b], nSelected + [n]) == nUnsatisfied[b] + if b == c && n == 0 then 1 else 0
    {
      CountZeroKeeps(depsOf[b], nSelected, [n]);
      if b == c {
        CountZeroCons(|nSelected|, depsOf[b], nSelected + [n]);
      }
    }
  }

  lemma NewLinks(cat: Catalog, deps: seq<Dep>, owner: seq<Cand>, depsOf: seq<seq<nat>>, revdepsOf: seq<seq<nat>>,
                 dep: Dep, c: Cand, revs: seq<seq<nat>>)
    requires Linked(cat, deps, owner, depsOf, revdepsOf) && c < |cat.info| && AltsOn(cat, dep)
    requires |revs| == |cat.info|
    requires forall b :: 0 <= b < |cat.info| ==> revs[b] == (if b in dep.alts then [|deps|] else []) + revdepsOf[b]
    ensures Linked(cat, deps + [dep], owner + [c], depsOf[c := [|deps|] + depsOf[c]], revs)
    ensures DepList(deps + [dep], [|deps|] + depsOf[c]) == [dep] + DepList(deps, depsOf[c])
    ensures forall b :: 0 <= b < |cat.info| && b != c ==> DepList(deps + [dep], depsOf[b]) == DepList(deps, depsOf[b])
  {
    NewLinked(cat, deps, owner, depsOf, revdepsOf, dep, c, revs);
    NewLists(cat, deps, owner, depsOf, revdepsOf, dep, c);
  }

  lemma NewLinked(cat: Catalog, deps: seq<Dep>, owner: seq<Cand>, depsOf: seq<seq<nat>>, revdepsOf: seq<seq<nat>>,
                  dep: Dep, c: Cand, revs: seq<seq<nat>>)
    requires Linked(cat, deps, owner, depsOf, revdepsOf) && c < |cat.info| && AltsOn(cat, dep)
    requires |revs| == |cat.info|
    requires forall b :: 0 <= b < |cat.info| ==> revs[b] == (if b in dep.alts then [|deps|] else []) + revdepsOf[b]
    ensures Linked(cat, deps + [dep], owner + [c], depsOf[c := [|deps|] + depsOf[c]], revs)
  {
    var deps1, owner1, depsOf1 := deps + [dep], owner + [c], depsOf[c := [|deps|] + depsOf[c]];
    forall d | 0 <= d < |deps1|
      ensures owner1[d] < |cat.info| && d in depsOf1[owner1[d]] && AltsOn(cat, deps1[d]) && ListedBy(deps1[d], d, revs)
    {
      if d < |deps| {
        assert AltsOn(cat, deps[d]) && ListedBy(deps[d], d, revdepsOf);
        assert d in depsOf[owner[d]];
      }
    }
    forall b | 0 <= b < |cat.info| ensures Distinct(depsOf1[b]) && Distinct(revs[b]) {
    }
  }

  lemma NewLists(cat: Catalog, deps: seq<Dep>, owner: seq<Cand>, depsOf: seq<seq<nat>>, revdepsOf: seq<seq<nat>>,
                 dep: Dep, c: Cand)
    requires Linked(cat, deps, owner, depsOf, revdepsOf) && c < |cat.info|
    ensures DepList(deps + [dep], [|deps|] + depsOf[c]) == [dep] + DepList(deps, depsOf[c])
    ensures forall b :: 0 <= b < |cat.info| && b != c ==> DepList(deps + [dep], depsOf[b]) == DepList(deps, depsOf[b])
  {
    hide AltsOn, ListedBy;
  }

  lemma TalliedLength(depsOf: seq<seq<nat>>, nSelected: seq<int>, nUnsatisfied: seq<int>)
    requires Tallied(depsOf, nSelected, nUnsatisfied)
    ensures |nUnsatisfied| == |depsOf|
  {
  }

  /** The list of deps that name a candidate is complete. */
  lemma RevListed(cat: Catalog, deps: seq<Dep>, owner: seq<Cand>, depsOf: seq<seq<nat>>, revdepsOf: seq<seq<nat>>,
                  c: Cand)
    requires Linked(cat, deps, owner, depsOf, revdepsOf) && c < |cat.info|
    ensures forall d: nat :: d < |deps| ==> (d in revdepsOf[c] <==> c in deps[d].alts)
    ensures revdepsOf[c][..|revdepsOf[c]|] == revdepsOf[c]
  {
    forall d: nat | d < |deps| && c in deps[d].alts ensures d in revdepsOf[c] {
      assert ListedBy(deps[d], d, revdepsOf);
    }
  }

  function Moved(count: int, was: Cand, c: Cand, d: Dep): int {
    count - (if was in d.alts then 1 else 0) + (if c in d.alts then 1 else 0)
  }

  /** What the counts must become when seat `s` changes to `c`. */
  lemma CountsMove(cat: Catalog, sel: Selection, s: Seat, c: Cand, deps: seq<Dep>, owner: seq<Cand>,
                   depsOf: seq<seq<nat>>, revdepsOf: seq<seq<nat>>, counts: seq<int>)
    requires Linked(cat, deps, owner, depsOf, revdepsOf) && Counted(cat, sel, deps, counts)
    requires s < |sel| && c < |cat.info| && cat.info[c].seat == s && sel[s] != c
    requires sel[s] < |cat.info| && cat.info[sel[s]].seat == s
    ensures forall d: nat :: d < |deps| ==> AltsAre(cat, deps[d].alts)
    ensures forall d: nat :: d < |deps| ==>
      CountSelected(cat, sel[s := c], deps[d].alts) == Moved(counts[d], sel[s], c, deps[d])
    ensures forall d: nat :: d < |deps| ==> counts[d] - (if sel[s] in deps[d].alts then 1 else 0) >= 0
  {
    forall d: nat | d < |deps|
      ensures CountSelected(cat, sel[s := c], deps[d].alts) == Moved(counts[d], sel[s], c, deps[d])
      ensures counts[d] - (if sel[s] in deps[d].alts then 1 else 0) >= 0
    {
      assert AltsOn(cat, deps[d]);
      CountMove(cat, sel, s, c, deps[d].alts);
      CountSelectedPositive(cat, sel, deps[d].alts);
    }
  }

  function DepList(deps: seq<Dep>, ids: seq<nat>): seq<Dep>
    requires forall i :: 0 <= i < |ids| ==> ids[i] < |deps|
  {
    seq(|ids|, i requires 0 <= i < |ids| => deps[ids[i]])
  }
}
