/** Starting a workspace: find providers, compile all relations into deps, and
    derive the reverse deps. */
module Startup {
  import opened Basics
  import opened Network
  import opened Catalogs
  import opened ReverseDeps
  import opened DepBuilders
  import opened TagSets
  import opened Workspaces

  /** A candidate once for every time it provides the package of a seat. */
  function Listings(c: Cand, provided: seq<Seat>, s: Seat): seq<Cand> {
    if provided == [] then []
    else
      var n := |provided| - 1;
      (if provided[n] == s then [c] else []) + Listings(c, provided[..n], s)
  }

  /** The providers of a seat among the first `n` candidates: the last one comes first. */
  function ProviderList(cat: Catalog, s: Seat, n: nat): seq<Cand>
    requires n <= |cat.info|
  {
    if n == 0 then []
    else
      var own := if cat.info[n - 1].version.Some? then Listings(n - 1, cat.info[n - 1].provided, s) else [];
      own + ProviderList(cat, s, n - 1)
  }

  lemma {:induction false} ListingsMembers(c: Cand, provided: seq<Seat>, s: Seat, p: Cand)
    ensures p in Listings(c, provided, s) <==> p == c && s in provided
  {
    if provided != [] {
      var n := |provided| - 1;
      ListingsMembers(c, provided[..n], s, p);
      assert provided == provided[..n] + [provided[n]];
    }
  }

  lemma {:induction false} ProviderListMembers(cat: Catalog, s: Seat, n: nat, p: Cand)
    requires n <= |cat.info|
    ensures p in ProviderList(cat, s, n) <==> p < n && IsProvider(cat, p, s)
  {
    if n > 0 {
      ProviderListMembers(cat, s, n - 1, p);
      ListingsMembers(n - 1, cat.info[n - 1].provided, s, p);
    }
  }

  /** The candidates that provide the package of a seat, the last one first, once for each
      time they do. */
  method FindProviders(cat: Catalog) returns (providers: seq<seq<Cand>>)
    requires ValidCatalog(cat)
    ensures |providers| == cat.seats
    ensures forall s :: 0 <= s < cat.seats ==> providers[s] == ProviderList(cat, s, |cat.info|)
    ensures ValidProviders(cat, providers)
  {
    hide Listings;
    providers := seq(cat.seats, _ => []);
    for c := 0 to |cat.info|
      invariant |providers| == cat.seats
      invariant forall s :: 0 <= s < cat.seats ==> providers[s] == ProviderList(cat, s, c)
    {
      assert ValidInfo(cat, cat.info[c]);
      if cat.info[c].version.Some? {
        providers := AddListings(c, cat.info[c].provided, providers);
      }
    }
    forall s: nat, p: Cand | s < cat.seats
      ensures p in providers[s] <==> IsProvider(cat, p, s)
    {
      ProviderListMembers(cat, s, |cat.info|, p);
    }
  }

  /** Put a candidate in front for every package it provides. */
  method AddListings(c: Cand, provided: seq<Seat>, before: seq<seq<Cand>>) returns (providers: seq<seq<Cand>>)
    requires forall i :: 0 <= i < |provided| ==> provided[i] < |before|
    ensures |providers| == |before|
    ensures forall s :: 0 <= s < |before| ==> providers[s] == Listings(c, provided, s) + before[s]
  {
    hide Listings;
    providers := before;
    ListingsNone(c);
    for i := 0 to |provided|
      invariant |providers| == |before|
      invariant forall s :: 0 <= s < |before| ==> providers[s] == Listings(c, provided[..i], s) + before[s]
    {
      ListingsNext(c, provided, i);
      providers := providers[provided[i] := [c] + providers[provided[i]]];
    }
    assert provided[..|provided|] == provided;
  }

  lemma ListingsNone(c: Cand)
    ensures forall s :: Listings(c, [], s) == []
  {
  }

  lemma ListingsNext(c: Cand, provided: seq<Seat>, i: nat)
    requires i < |provided|
    ensures forall s :: Listings(c, provided[..i + 1], s)
                        == (if provided[i] == s then [c] else []) + Listings(c, provided[..i], s)
  {
    assert provided[..i + 1][..i] == provided[..i];
  }

  /** Compile some rules of a candidate, after those in `before`. */
  method DoRules(ws: Workspace, b: DepBuilder, providers: seq<seq<Cand>>, c: Cand, rules: seq<Rule>,
                 ghost before: seq<Rule>)
    requires ws.Valid() && b.Valid() && b.altSet.tags.Length == |ws.cat.info| && ValidProviders(ws.cat, providers)
    requires c < |ws.cat.info| && ValidRules(ws.cat, before) && ValidRules(ws.cat, rules)
    requires ws.DepsAt(c) == CompileAll(ws.cat, providers, before)
    modifies ws, b, b.altSet, b.altSet.tags
    ensures ws.Valid() && b.Valid() && ws.selected == old(ws.selected)
    ensures ValidRules(ws.cat, before + rules)
    ensures ws.AllDeps() == old(ws.AllDeps())[c := CompileAll(ws.cat, providers, before + rules)]
  {
    hide Linked, Counted, Tallied, ValidConfig, ValidCatalog, CompileAll;
    assert before + rules[..0] == before;
    for i := 0 to |rules|
      invariant ws.Valid() && b.Valid() && ws.selected == old(ws.selected)
      invariant ws.DepsAt(c) == CompileAll(ws.cat, providers, before + rules[..i])
      invariant forall a :: 0 <= a < |ws.cat.info| && a != c ==> ws.DepsAt(a) == old(ws.DepsAt(a))
    {
      assert before + rules[..i + 1] == (before + rules[..i]) + [rules[i]];
      DoRule(ws, b, providers, c, rules[i], before + rules[..i]);
    }
    assert before + rules[..|rules|] == before + rules;
  }

  /** Compile one rule, after those in `before`. */
  method DoRule(ws: Workspace, b: DepBuilder, providers: seq<seq<Cand>>, c: Cand, rule: Rule, ghost before: seq<Rule>)
    requires ws.Valid() && b.Valid() && b.altSet.tags.Length == |ws.cat.info| && ValidProviders(ws.cat, providers)
    requires c < |ws.cat.info| && ValidRules(ws.cat, before) && ValidAlternatives(ws.cat, rule.alts)
    requires ws.DepsAt(c) == CompileAll(ws.cat, providers, before)
    modifies ws, b, b.altSet, b.altSet.tags
    ensures ws.Valid() && b.Valid() && ws.selected == old(ws.selected)
    ensures ValidRules(ws.cat, before + [rule])
    ensures ws.DepsAt(c) == CompileAll(ws.cat, providers, before + [rule])
    ensures forall a :: 0 <= a < |ws.cat.info| && a != c ==> ws.DepsAt(a) == old(ws.DepsAt(a))
  {
    hide Linked, Counted, Tallied, ValidConfig, ValidCatalog, CompileRule;
    ghost var next := before + [rule];
    assert next[..|next| - 1] == before;
    b.CollectRule(ws.cat, providers, rule);
    ws.Finish(b, c, rule.field, false, false);
  }

  /** The rules that a candidate has by itself, without those of the goal. */
  function OwnRules(cat: Catalog, c: Cand): seq<Rule>
    requires c < |cat.info|
  {
    if cat.info[c].version.Some? then InfoRules(cat.info[c]) else []
  }

  ghost function CompileOwn(cat: Catalog, providers: seq<seq<Cand>>, c: Cand): seq<Dep>
    requires ValidCatalog(cat) && |providers| == cat.seats && c < |cat.info|
  {
    RulesOfValid(cat, c);
    CompileAll(cat, providers, OwnRules(cat, c))
  }

  ghost function CompileCand(cat: Catalog, providers: seq<seq<Cand>>, c: Cand): seq<Dep>
    requires ValidCatalog(cat) && |providers| == cat.seats && c < |cat.info|
  {
    RulesOfValid(cat, c);
    CompileAll(cat, providers, RulesOf(cat, c))
  }

  /** The deps of all candidates, once those before `n` have been compiled. */
  ghost function CompiledTo(cat: Catalog, providers: seq<seq<Cand>>, n: nat): seq<seq<Dep>>
    requires ValidCatalog(cat) && |providers| == cat.seats
  {
    seq(|cat.info|, a requires 0 <= a < |cat.info| => if a < n then CompileOwn(cat, providers, a) else [])
  }

  ghost function Compiled(cat: Catalog, providers: seq<seq<Cand>>): seq<seq<Dep>>
    requires ValidCatalog(cat) && |providers| == cat.seats
  {
    seq(|cat.info|, a requires 0 <= a < |cat.info| => CompileCand(cat, providers, a))
  }

  lemma CompileNothing(cat: Catalog, providers: seq<seq<Cand>>)
    requires ValidCatalog(cat) && |providers| == cat.seats
    ensures CompileAll(cat, providers, []) == []
  {
  }

  lemma RulesSplit(cat: Catalog)
    ensures forall a :: 0 <= a < |cat.info| ==>
      RulesOf(cat, a) == OwnRules(cat, a) + (if a == cat.goal then GoalRules(cat.goalSpec) else [])
    ensures forall a :: 0 <= a < |cat.info| ==> OwnRules(cat, a) + [] == OwnRules(cat, a)
  {
  }

  /** Compile the relations of all candidates, and then those of the goal. */
  method ComputeDeps(ws: Workspace, b: DepBuilder, providers: seq<seq<Cand>>)
    requires ws.Valid() && b.Valid() && b.altSet.tags.Length == |ws.cat.info| && ValidProviders(ws.cat, providers)
    requires ws.AllDeps() == CompiledTo(ws.cat, providers, 0)
    modifies ws, b, b.altSet, b.altSet.tags
    ensures ws.Valid() && b.Valid() && ws.selected == old(ws.selected)
    ensures ws.AllDeps() == Compiled(ws.cat, providers)
  {
    hide Linked, Counted, Tallied, ValidConfig, ValidInfo, CompileAll, OnSeat;
    var cat := ws.cat;
    CompileNothing(cat, providers);
    for c := 0 to |cat.info|
      invariant ws.Valid() && b.Valid() && ws.selected == old(ws.selected)
      invariant ws.AllDeps() == CompiledTo(cat, providers, c)
    {
      RulesOfValid(cat, c);
      if cat.info[c].version.Some? {
        var rules := InfoRules(cat.info[c]);
        assert ws.DepsAt(c) == ws.AllDeps()[c];
        DoRules(ws, b, providers, c, rules, []);
        assert [] + rules == OwnRules(cat, c);
      }
      assert ws.AllDeps() == CompiledTo(cat, providers, c + 1);
    }
    RulesOfValid(cat, cat.goal);
    RulesSplit(cat);
    assert ws.DepsAt(cat.goal) == ws.AllDeps()[cat.goal];
    DoRules(ws, b, providers, cat.goal, GoalRules(cat.goalSpec), OwnRules(cat, cat.goal));
    assert ws.AllDeps() == Compiled(cat, providers);
  }

  /* Reverse deps. */

  lemma {:induction false} AddMatchingNone(acc: seq<Cand>, cs: seq<Cand>, f: Cand -> bool)
    requires forall i :: 0 <= i < |cs| ==> !f(cs[i])
    ensures AddMatching(acc, cs, f) == acc
  {
    if cs != [] {
      AddMatchingNone(acc, cs[..|cs| - 1], f);
    }
  }

  /** Take over what a dep allows instead of `t`, if it is on a sibling of `t` only. */
  method TakeAlternatives(cat: Catalog, b: DepBuilder, t: Cand, d: Dep) returns (sibling: bool)
    requires ValidCatalog(cat) && b.Valid() && b.altSet.tags.Length == |cat.info|
    requires t < |cat.info| && AltsAre(cat, d.alts)
    requires !d.reversed && b.Current().Some?
    modifies b, b.altSet.tags
    ensures b.Valid() && sibling == OnSibling(cat, t, d)
    ensures var acc := old(b.Current()).value;
      b.Current() == Some(if sibling then AddMatching(acc, d.alts, Elsewhere(cat, t)) else acc)
  {
    var tSeatDep, tDep, otherDep := false, false, false;
    for i := 0 to |d.alts|
      invariant tDep <==> t in d.alts[..i]
      invariant tSeatDep ==> exists a :: a in d.alts && a < |cat.info| && cat.info[a].seat == cat.info[t].seat
      invariant !tSeatDep ==> forall a :: a in d.alts[..i] && a != t ==> cat.info[a].seat != cat.info[t].seat
      invariant !otherDep ==> forall k :: 0 <= k < i ==> !Elsewhere(cat, t)(d.alts[k])
    {
      assert d.alts[..i + 1] == d.alts[..i] + [d.alts[i]];
      if d.alts[i] == t {
        tDep := true;
      } else if cat.info[d.alts[i]].seat == cat.info[t].seat {
        tSeatDep := true;
      } else {
        otherDep := true;
      }
    }
    assert d.alts[..|d.alts|] == d.alts;
    sibling := !tDep && tSeatDep;
    if sibling {
      ghost var acc := b.Current().value;
      if otherDep {
        for i := 0 to |d.alts|
          invariant b.Valid() && b.Current() == Some(AddMatching(acc, d.alts[..i], Elsewhere(cat, t)))
        {
          assert d.alts[..i + 1][..i] == d.alts[..i];
          if cat.info[d.alts[i]].seat != cat.info[t].seat {
            b.AddAlt(d.alts[i]);
          }
        }
        assert d.alts[..|d.alts|] == d.alts;
      } else {
        AddMatchingNone(acc, d.alts, Elsewhere(cat, t));
      }
    }
  }

  /** What the deps of one candidate of the other seat contribute. */
  method TakeCand(ws: Workspace, b: DepBuilder, t: Cand, c: Cand) returns (sibling: bool, conflict: bool)
    requires ws.Valid() && b.Valid() && b.altSet.tags.Length == |ws.cat.info| && t < |ws.cat.info| && c < |ws.cat.info|
    requires b.Current().Some?
    modifies b, b.altSet.tags
    ensures b.Valid()
    ensures sibling == HasSiblingDep(ws.cat, t, ws.DepsAt(c)) && conflict == HasConflict(ws.cat, t, ws.DepsAt(c))
    ensures var acc := old(b.Current()).value;
      b.Current() == Some(if sibling then FromDeps(ws.cat, t, ws.DepsAt(c), acc) else AddNew(acc, c))
  {
    hide Counted, Tallied, ValidConfig, ValidCatalog, AltsOn, OnSibling, Linked;
    ghost var deps, acc := ws.DepsAt(c), b.Current().value;
    sibling, conflict := false, false;
    DepsLinked(ws.cat, ws.deps, ws.owner, ws.depsOf, ws.revdepsOf, c);
    for i := 0 to |ws.depsOf[c]|
      invariant b.Valid() && b.Current() == Some(FromDeps(ws.cat, t, deps[..i], acc))
      invariant sibling == HasSiblingDep(ws.cat, t, deps[..i])
      invariant conflict == HasConflict(ws.cat, t, deps[..i])
      invariant !sibling ==> FromDeps(ws.cat, t, deps[..i], acc) == acc
    {
      assert deps[..i + 1] == deps[..i] + [deps[i]] && deps[..i + 1][..i] == deps[..i];
      var d := ws.deps[ws.depsOf[c][i]];
      assert d == deps[i];
      if d.reversed {
        NotOnSibling(ws.cat, t, d);
        continue;
      }
      var onSibling := TakeAlternatives(ws.cat, b, t, d);
      if onSibling {
        sibling := true;
        if d.rel == Some(Conflicts) {
          conflict := true;
        }
      }
    }
    assert deps[..|deps|] == deps;
    if !sibling {
      b.AddAlt(c);
    }
  }

  lemma NotOnSibling(cat: Catalog, t: Cand, d: Dep)
    requires d.reversed && t < |cat.info|
    ensures !OnSibling(cat, t, d)
  {
  }

  lemma DepsLinked(cat: Catalog, deps: seq<Dep>, owner: seq<Cand>, depsOf: seq<seq<nat>>, revdepsOf: seq<seq<nat>>,
                   c: Cand)
    requires Linked(cat, deps, owner, depsOf, revdepsOf) && c < |cat.info|
    ensures |depsOf| == |cat.info|
    ensures forall i :: 0 <= i < |depsOf[c]| ==> depsOf[c][i] < |deps| && AltsAre(cat, deps[depsOf[c][i]].alts)
  {
    forall i | 0 <= i < |depsOf[c]| ensures AltsAre(cat, deps[depsOf[c][i]].alts) {
      assert AltsOn(cat, deps[depsOf[c][i]]);
    }
  }

  /** What the candidates of the other seat contribute together. */
  method TakeSeat(ws: Workspace, b: DepBuilder, t: Cand, cs: seq<Cand>) returns (all: bool, conflict: bool)
    requires ws.Valid() && b.Valid() && b.altSet.tags.Length == |ws.cat.info| && t < |ws.cat.info|
    requires forall i :: 0 <= i < |cs| ==> cs[i] < |ws.cat.info|
    modifies b, b.altSet, b.altSet.tags
    ensures b.Valid()
    ensures b.Current() == Some(ReverseAlts(ws.cat, ws.AllDeps(), t, cs))
    ensures all == Trivial(ws.cat, ws.AllDeps(), t, cs) && conflict == ReverseConflict(ws.cat, ws.AllDeps(), t, cs)
  {
    hide Linked, Counted, Tallied, ValidConfig, ValidInfo, OnSeat, ValidCatalog;
    hide FromDeps, AddNew, HasSiblingDep, HasConflict;
    ghost var deps := ws.AllDeps();
    b.Start();
    all, conflict := true, false;
    for i := 0 to |cs|
      modifies b, b.altSet.tags
      invariant b.Valid() && b.Current() == Some(ReverseAlts(ws.cat, deps, t, cs[..i]))
      invariant all == Trivial(ws.cat, deps, t, cs[..i])
      invariant conflict == ReverseConflict(ws.cat, deps, t, cs[..i])
    {
      var more := cs[..i + 1];
      assert more[..i] == cs[..i] && forall k :: 0 <= k < i ==> more[k] == cs[..i][k];
      assert ws.DepsAt(cs[i]) == deps[cs[i]];
      var sibling, conf := TakeCand(ws, b, t, cs[i]);
      PrefixStep(ws.cat, deps, t, more);
      all := all && !sibling;
      conflict := conflict || conf;
    }
    assert cs[..|cs|] == cs;
  }

  /** Record the reverse dep of a candidate for a seat, unless it is trivial. */
  method ConsiderCandAndSeat(ws: Workspace, b: DepBuilder, t: Cand, s: Seat)
    requires ws.Valid() && b.Valid() && b.altSet.tags.Length == |ws.cat.info| && t < |ws.cat.info| && s < ws.cat.seats
    modifies ws, b, b.altSet, b.altSet.tags
    ensures ws.Valid() && b.Valid() && ws.selected == old(ws.selected)
    ensures ws.AllDeps() == AddReverse(ws.cat, old(ws.AllDeps()), t, s)
  {
    hide Linked, Counted, Tallied, ValidConfig, ValidInfo, OnSeat, ReverseAlts, Trivial, ReverseConflict;
    ghost var deps := ws.AllDeps();
    MembersAre(ws.cat, s);
    var all, conflict := TakeSeat(ws, b, t, ws.cat.members[s]);
    if all {
      b.KillCur();
    }
    ws.Finish(b, t, None, true, conflict);
    forall a | 0 <= a < |ws.cat.info| ensures ws.AllDeps()[a] == AddReverse(ws.cat, deps, t, s)[a] {
      assert ws.AllDeps()[a] == ws.DepsAt(a);
      assert deps[a] == old(ws.DepsAt(a));
    }
  }

  lemma PrefixStep(cat: Catalog, deps: seq<seq<Dep>>, t: Cand, cs: seq<Cand>)
    requires cs != [] && t < |cat.info| && forall i :: 0 <= i < |cs| ==> cs[i] < |deps|
    ensures Trivial(cat, deps, t, cs) <==>
      Trivial(cat, deps, t, cs[..|cs| - 1]) && !HasSiblingDep(cat, t, deps[cs[|cs| - 1]])
    ensures ReverseConflict(cat, deps, t, cs) <==>
      ReverseConflict(cat, deps, t, cs[..|cs| - 1]) || HasConflict(cat, t, deps[cs[|cs| - 1]])
  {
    var before := cs[..|cs| - 1];
    assert forall i :: 0 <= i < |before| ==> before[i] == cs[i];
    if i :| 0 <= i < |cs| && HasConflict(cat, t, deps[cs[i]]) {
      assert i < |before| ==> HasConflict(cat, t, deps[before[i]]);
    }
  }

  ghost function AddReverse(cat: Catalog, deps: seq<seq<Dep>>, t: Cand, s: Seat): seq<seq<Dep>>
    requires ValidCatalog(cat) && |deps| == |cat.info| && t < |cat.info| && s < cat.seats
  {
    MembersAre(cat, s);
    if Trivial(cat, deps, t, cat.members[s]) then deps else deps[t := [ReverseOf(cat, deps, t, s)] + deps[t]]
  }

  /** `deps` are the forward deps with reverse deps in front. */
  ghost predicate Derived(cat: Catalog, forward: seq<seq<Dep>>, deps: seq<seq<Dep>>)
    requires ValidCatalog(cat) && |forward| == |cat.info|
  {
    |deps| == |forward| && forall t: nat :: t < |deps| ==> DerivedAt(cat, forward, t, deps[t])
  }

  ghost predicate DerivedAt(cat: Catalog, forward: seq<seq<Dep>>, t: Cand, ds: seq<Dep>)
    requires ValidCatalog(cat) && |forward| == |cat.info| && t < |cat.info|
  {
    var n := |ds| - |forward[t]|;
    n >= 0 && ds[n..] == forward[t] && forall k :: 0 <= k < n ==> IsReverse(cat, forward, t, ds[k])
  }

  ghost predicate AllForward(deps: seq<seq<Dep>>) {
    forall c :: 0 <= c < |deps| ==> forall d :: d in deps[c] ==> !d.reversed
  }

  lemma {:induction false} ForwardAppend(xs: seq<Dep>, ys: seq<Dep>)
    requires (forall d :: d in xs ==> d.reversed) && (forall d :: d in ys ==> !d.reversed)
    ensures Forward(xs + ys) == ys
  {
    if ys == [] {
      assert xs + ys == xs;
      ForwardNone(xs);
    } else {
      var n := |ys| - 1;
      assert (xs + ys)[..|xs + ys| - 1] == xs + ys[..n];
      ForwardAppend(xs, ys[..n]);
      assert (xs + ys)[|xs + ys| - 1] == ys[n];
      assert ys[..n] + [ys[n]] == ys;
    }
  }

  lemma {:induction false} ForwardNone(xs: seq<Dep>)
    requires forall d :: d in xs ==> d.reversed
    ensures Forward(xs) == []
  {
    if xs != [] {
      ForwardNone(xs[..|xs| - 1]);
      assert xs[|xs| - 1] in xs;
    }
  }

  lemma DerivedAtForward(cat: Catalog, forward: seq<seq<Dep>>, t: Cand, ds: seq<Dep>)
    requires ValidCatalog(cat) && |forward| == |cat.info| && AllForward(forward) && t < |cat.info|
    requires DerivedAt(cat, forward, t, ds)
    ensures Forward(ds) == forward[t]
  {
    hide ValidCatalog, Forward, IsReverseFor;
    var n := |ds| - |forward[t]|;
    forall d | d in ds[..n] ensures d.reversed {
      var k :| 0 <= k < n && ds[k] == d;
      ReverseReversed(cat, forward, t, d);
    }
    ForwardAppend(ds[..n], forward[t]);
    assert ds[..n] + forward[t] == ds;
  }

  lemma ReverseReversed(cat: Catalog, forward: seq<seq<Dep>>, t: Cand, d: Dep)
    requires ValidCatalog(cat) && |forward| == |cat.info| && t < |cat.info| && IsReverse(cat, forward, t, d)
    ensures d.reversed
  {
    var s: nat :| s < cat.seats && IsReverseFor(cat, forward, t, s, d);
  }

  lemma DerivedForward(cat: Catalog, forward: seq<seq<Dep>>, deps: seq<seq<Dep>>)
    requires ValidCatalog(cat) && |forward| == |cat.info| && AllForward(forward) && Derived(cat, forward, deps)
    ensures SameForward(forward, deps)
    ensures forall c :: 0 <= c < |deps| ==> Forward(deps[c]) == forward[c]
  {
    hide ValidCatalog, Forward, DerivedAt;
    forall c: nat | c < |deps| ensures Forward(deps[c]) == forward[c] == Forward(forward[c]) {
      assert DerivedAt(cat, forward, c, deps[c]);
      DerivedAtForward(cat, forward, c, deps[c]);
      ForwardAppend([], forward[c]);
      assert [] + forward[c] == forward[c];
    }
  }

  lemma AddReverseAt(cat: Catalog, forward: seq<seq<Dep>>, t: Cand, ds: seq<Dep>, r: Dep)
    requires ValidCatalog(cat) && |forward| == |cat.info| && t < |cat.info| && DerivedAt(cat, forward, t, ds)
    requires IsReverse(cat, forward, t, r)
    ensures DerivedAt(cat, forward, t, [r] + ds)
  {
    hide ValidCatalog, IsReverse;
    var n := |ds| - |forward[t]|;
    assert ([r] + ds)[n + 1..] == ds[n..];
    forall k | 0 <= k < n + 1 ensures IsReverse(cat, forward, t, ([r] + ds)[k]) {
      assert k > 0 ==> ([r] + ds)[k] == ds[k - 1];
    }
  }

  /** Adding one reverse dep to what was derived so far. */
  lemma AddReverseDerived(cat: Catalog, forward: seq<seq<Dep>>, deps: seq<seq<Dep>>, t: Cand, s: Seat)
    requires ValidCatalog(cat) && |forward| == |cat.info| && AllForward(forward) && Derived(cat, forward, deps)
    requires t < |cat.info| && s < cat.seats
    ensures var deps' := AddReverse(cat, deps, t, s);
      Derived(cat, forward, deps') && Grown(deps, deps') && ReverseDone(cat, forward, deps', t, s)
  {
    hide DerivedAt, ReverseAlts, ReverseConflict, Trivial, SameForward, OnSeat, ValidInfo;
    DerivedForward(cat, forward, deps);
    MembersAre(cat, s);
    ReverseSame(cat, forward, deps, t, cat.members[s]);
    if !Trivial(cat, deps, t, cat.members[s]) {
      var r := ReverseOf(cat, forward, t, s);
      assert r == ReverseOf(cat, deps, t, s);
      assert IsReverseFor(cat, forward, t, s, r);
      assert DerivedAt(cat, forward, t, deps[t]);
      AddReverseAt(cat, forward, t, deps[t], r);
    }
  }

  ghost predicate Grown(deps: seq<seq<Dep>>, deps': seq<seq<Dep>>) {
    |deps'| == |deps| && forall t :: 0 <= t < |deps| ==> forall d :: d in deps[t] ==> d in deps'[t]
  }

  /** The reverse dep of `t` for a seat was recorded, unless it is trivial. */
  ghost predicate ReverseDone(cat: Catalog, forward: seq<seq<Dep>>, deps: seq<seq<Dep>>, t: Cand, s: Seat)
    requires ValidCatalog(cat) && |forward| == |cat.info| == |deps| && t < |cat.info| && s < cat.seats
  {
    MembersAre(cat, s);
    Trivial(cat, forward, t, cat.members[s]) || ReverseOf(cat, forward, t, s) in deps[t]
  }

  ghost predicate SeatDone(cat: Catalog, forward: seq<seq<Dep>>, deps: seq<seq<Dep>>, t: Seat, s: Seat)
    requires ValidCatalog(cat) && |forward| == |cat.info| == |deps| && t < cat.seats && s < cat.seats
  {
    forall c :: 0 <= c < |cat.info| && cat.info[c].seat == t ==> ReverseDone(cat, forward, deps, c, s)
  }

  /** A candidate of seat `s` has a forward dep on the candidate. */
  ghost predicate DependsOn(cat: Catalog, forward: seq<seq<Dep>>, s: Seat, c: Cand)
    requires |forward| == |cat.info|
  {
    exists a, d :: 0 <= a < |cat.info| && cat.info[a].seat == s && d in forward[a] && c in d.alts
  }

  ghost predicate Covered(cat: Catalog, forward: seq<seq<Dep>>, deps: seq<seq<Dep>>, t: Seat)
    requires ValidCatalog(cat) && |forward| == |cat.info| == |deps| && t < cat.seats
  {
    forall s, c ::
      0 <= s < cat.seats && 0 <= c < |cat.info| && cat.info[c].seat == t && DependsOn(cat, forward, s, c) ==>
      SeatDone(cat, forward, deps, t, s)
  }

  lemma GrownDone(cat: Catalog, forward: seq<seq<Dep>>, deps: seq<seq<Dep>>, deps': seq<seq<Dep>>)
    requires ValidCatalog(cat) && |forward| == |cat.info| == |deps| && Grown(deps, deps')
    ensures forall t, s :: 0 <= t < |cat.info| && 0 <= s < cat.seats && ReverseDone(cat, forward, deps, t, s) ==>
      ReverseDone(cat, forward, deps', t, s)
    ensures forall t, s :: 0 <= t < cat.seats && 0 <= s < cat.seats && SeatDone(cat, forward, deps, t, s) ==>
      SeatDone(cat, forward, deps', t, s)
    ensures forall t :: 0 <= t < cat.seats && Covered(cat, forward, deps, t) ==> Covered(cat, forward, deps', t)
  {
  }

  method ConsiderSeatAndSeat(ws: Workspace, b: DepBuilder, t: Seat, s: Seat, ghost forward: seq<seq<Dep>>)
    requires ws.Valid() && b.Valid() && b.altSet.tags.Length == |ws.cat.info| && t < ws.cat.seats && s < ws.cat.seats
    requires |forward| == |ws.cat.info| && AllForward(forward) && Derived(ws.cat, forward, ws.AllDeps())
    modifies ws, b, b.altSet, b.altSet.tags
    ensures ws.Valid() && b.Valid() && ws.selected == old(ws.selected)
    ensures Derived(ws.cat, forward, ws.AllDeps()) && Grown(old(ws.AllDeps()), ws.AllDeps())
    ensures SeatDone(ws.cat, forward, ws.AllDeps(), t, s)
  {
    hide Linked, Counted, Tallied, ValidConfig, ValidInfo, Derived, AddReverse, ReverseDone, Grown;
    var cs := ws.cat.members[t];
    MembersAre(ws.cat, t);
    GrownRefl(ws.AllDeps());
    for i := 0 to |cs|
      invariant ws.Valid() && b.Valid() && ws.selected == old(ws.selected)
      invariant Derived(ws.cat, forward, ws.AllDeps()) && Grown(old(ws.AllDeps()), ws.AllDeps())
      invariant forall k :: 0 <= k < i ==> ReverseDone(ws.cat, forward, ws.AllDeps(), cs[k], s)
    {
      ghost var deps := ws.AllDeps();
      ConsiderCandAndSeat(ws, b, cs[i], s);
      AddReverseDerived(ws.cat, forward, deps, cs[i], s);
      GrownTrans(old(ws.AllDeps()), deps, ws.AllDeps());
      GrownDone(ws.cat, forward, deps, ws.AllDeps());
    }
    forall c | 0 <= c < |ws.cat.info| && ws.cat.info[c].seat == t
      ensures ReverseDone(ws.cat, forward, ws.AllDeps(), c, s)
    {
      var k :| 0 <= k < |cs| && cs[k] == c;
    }
  }

  lemma GrownRefl(deps: seq<seq<Dep>>)
    ensures Grown(deps, deps)
  {
  }

  lemma GrownTrans(deps: seq<seq<Dep>>, deps1: seq<seq<Dep>>, deps2: seq<seq<Dep>>)
    requires Grown(deps, deps1) && Grown(deps1, deps2)
    ensures Grown(deps, deps2)
  {
  }

  /** The seats whose candidates have deps that name `c`. */
  ghost predicate Dependents(cat: Catalog, forward: seq<seq<Dep>>, c: Cand, seats: seq<Seat>)
    requires |forward| == |cat.info|
  {
    forall s :: DependsOn(cat, forward, s, c) ==> s in seats
  }

  method FindDependents(ws: Workspace, c: Cand, ghost forward: seq<seq<Dep>>) returns (seats: seq<Seat>)
    requires ws.Valid() && c < |ws.cat.info|
    requires |forward| == |ws.cat.info| && Derived(ws.cat, forward, ws.AllDeps())
    ensures (forall i :: 0 <= i < |seats| ==> seats[i] < ws.cat.seats) && Dependents(ws.cat, forward, c, seats)
  {
    hide Counted, Tallied, ValidConfig, IsReverse;
    var revs := ws.revdepsOf[c];
    seats := [];
    for i := 0 to |revs|
      invariant |seats| == i
      invariant forall k :: 0 <= k < i ==> revs[k] < |ws.owner| && seats[k] == ws.cat.info[ws.owner[revs[k]]].seat
    {
      assert AltsOn(ws.cat, ws.deps[revs[i]]);
      seats := seats + [ws.cat.info[ws.owner[revs[i]]].seat];
    }
    forall k | 0 <= k < |seats| ensures seats[k] < ws.cat.seats {
      assert ValidInfo(ws.cat, ws.cat.info[ws.owner[revs[k]]]);
    }
    forall s | DependsOn(ws.cat, forward, s, c) ensures s in seats {
      var a, d :| 0 <= a < |ws.cat.info| && ws.cat.info[a].seat == s && d in forward[a] && c in d.alts;
      var k := DependentListed(ws, c, forward, a, d);
      assert seats[k] == s;
    }
  }

  /** The owner of a forward dep on a candidate is found among the reverse links. */
  lemma DependentListed(ws: Workspace, c: Cand, forward: seq<seq<Dep>>, a: Cand, d: Dep) returns (k: nat)
    requires ws.Valid() && c < |ws.cat.info| && a < |ws.cat.info|
    requires |forward| == |ws.cat.info| && Derived(ws.cat, forward, ws.AllDeps()) && d in forward[a] && c in d.alts
    ensures c < |ws.revdepsOf| && k < |ws.revdepsOf[c]|
    ensures ws.revdepsOf[c][k] < |ws.owner| && ws.owner[ws.revdepsOf[c][k]] == a
  {
    hide Counted, Tallied, ValidConfig, ValidCatalog, IsReverse;
    assert DerivedAt(ws.cat, forward, a, ws.AllDeps()[a]);
    var i :| 0 <= i < |forward[a]| && forward[a][i] == d;
    var ds := ws.DepsAt(a);
    assert ds == ws.AllDeps()[a] && ds[|ds| - |forward[a]| + i] == d;
    var id := ws.depsOf[a][|ds| - |forward[a]| + i];
    assert ws.deps[id] == d && ws.owner[id] == a && ListedBy(d, id, ws.revdepsOf);
    var x :| 0 <= x < |ws.revdepsOf[c]| && ws.revdepsOf[c][x] == id;
    k := x;
  }

  /** The seats in `seen` are through; take those of `seats` that are not in it yet. */
  method ConsiderSeats(ws: Workspace, b: DepBuilder, seen: TagSet, t: Seat, seats: seq<Seat>,
                       ghost forward: seq<seq<Dep>>)
    requires ws.Valid() && b.Valid() && b.altSet.tags.Length == |ws.cat.info| && t < ws.cat.seats
    requires seen.Valid() && seen.tags.Length == ws.cat.seats && seen != b.altSet && seen.tags != b.altSet.tags
    requires |forward| == |ws.cat.info| && AllForward(forward) && Derived(ws.cat, forward, ws.AllDeps())
    requires forall i :: 0 <= i < |seats| ==> seats[i] < ws.cat.seats
    requires forall s :: s in seen.Members() ==> SeatDone(ws.cat, forward, ws.AllDeps(), t, s)
    modifies ws, b, b.altSet, b.altSet.tags, seen, seen.tags
    ensures ws.Valid() && b.Valid() && seen.Valid() && ws.selected == old(ws.selected)
    ensures Derived(ws.cat, forward, ws.AllDeps()) && Grown(old(ws.AllDeps()), ws.AllDeps())
    ensures forall s :: s in seen.Members() ==> SeatDone(ws.cat, forward, ws.AllDeps(), t, s)
    ensures forall s :: s in seen.Members() <==> s in old(seen.Members()) || s in seats
  {
    hide Linked, Counted, Tallied, ValidConfig, ValidInfo, Derived, SeatDone, Grown, DependsOn, AllForward;
    GrownRefl(ws.AllDeps());
    for j := 0 to |seats|
      invariant ws.Valid() && b.Valid() && seen.Valid() && ws.selected == old(ws.selected)
      invariant Derived(ws.cat, forward, ws.AllDeps()) && Grown(old(ws.AllDeps()), ws.AllDeps())
      invariant forall s :: s in seen.Members() ==> SeatDone(ws.cat, forward, ws.AllDeps(), t, s)
      invariant forall s :: s in seen.Members() <==> s in old(seen.Members()) || s in seats[..j]
    {
      assert seats[..j + 1] == seats[..j] + [seats[j]];
      if !seen.Has(seats[j]) {
        ghost var deps := ws.AllDeps();
        seen.Add(seats[j]);
        ConsiderSeatAndSeat(ws, b, t, seats[j], forward);
        GrownTrans(old(ws.AllDeps()), deps, ws.AllDeps());
        GrownDone(ws.cat, forward, deps, ws.AllDeps());
      }
    }
    assert seats[..|seats|] == seats;
  }

  /** Derive the reverse deps of the candidates of a seat, for every seat that has
      deps on any of them. */
  method ConsiderSeat(ws: Workspace, b: DepBuilder, seen: TagSet, t: Seat, ghost forward: seq<seq<Dep>>)
    requires ws.Valid() && b.Valid() && b.altSet.tags.Length == |ws.cat.info| && t < ws.cat.seats
    requires seen.Valid() && seen.tags.Length == ws.cat.seats && seen != b.altSet && seen.tags != b.altSet.tags
    requires |forward| == |ws.cat.info| && AllForward(forward) && Derived(ws.cat, forward, ws.AllDeps())
    modifies ws, b, b.altSet, b.altSet.tags, seen, seen.tags
    ensures ws.Valid() && b.Valid() && seen.Valid() && ws.selected == old(ws.selected)
    ensures Derived(ws.cat, forward, ws.AllDeps()) && Grown(old(ws.AllDeps()), ws.AllDeps())
    ensures Covered(ws.cat, forward, ws.AllDeps(), t)
  {
    hide Linked, Counted, Tallied, ValidConfig, ValidInfo, Derived, SeatDone, Grown, DependsOn, AllForward;
    seen.Reset();
    var cs := ws.cat.members[t];
    MembersAre(ws.cat, t);
    GrownRefl(ws.AllDeps());
    for i := 0 to |cs|
      invariant ws.Valid() && b.Valid() && seen.Valid() && ws.selected == old(ws.selected)
      invariant Derived(ws.cat, forward, ws.AllDeps()) && Grown(old(ws.AllDeps()), ws.AllDeps())
      invariant forall s :: s in seen.Members() ==> SeatDone(ws.cat, forward, ws.AllDeps(), t, s)
      invariant forall k, s :: 0 <= k < i && DependsOn(ws.cat, forward, s, cs[k]) ==> s in seen.Members()
    {
      var seats := FindDependents(ws, cs[i], forward);
      ghost var deps := ws.AllDeps();
      ConsiderSeats(ws, b, seen, t, seats, forward);
      GrownTrans(old(ws.AllDeps()), deps, ws.AllDeps());
    }
    forall s, c
      | 0 <= s < ws.cat.seats && 0 <= c < |ws.cat.info| && ws.cat.info[c].seat == t && DependsOn(ws.cat, forward, s, c)
      ensures SeatDone(ws.cat, forward, ws.AllDeps(), t, s)
    {
      var k :| 0 <= k < |cs| && cs[k] == c;
    }
  }

  method ComputeReverseDeps(ws: Workspace, b: DepBuilder, ghost forward: seq<seq<Dep>>)
    requires ws.Valid() && b.Valid() && b.altSet.tags.Length == |ws.cat.info|
    requires ws.AllDeps() == forward && AllForward(forward)
    modifies ws, b, b.altSet, b.altSet.tags
    ensures ws.Valid() && b.Valid() && ws.selected == old(ws.selected)
    ensures Derived(ws.cat, forward, ws.AllDeps())
    ensures forall t :: 0 <= t < ws.cat.seats ==> Covered(ws.cat, forward, ws.AllDeps(), t)
  {
    hide Linked, Counted, Tallied, ValidConfig, ValidInfo, Covered, IsReverse, AllForward;
    var seen := new TagSet(ws.cat.seats);
    for t := 0 to ws.cat.seats
      invariant ws.Valid() && b.Valid() && seen.Valid() && ws.selected == old(ws.selected)
      invariant Derived(ws.cat, forward, ws.AllDeps())
      invariant forall k :: 0 <= k < t ==> Covered(ws.cat, forward, ws.AllDeps(), k)
    {
      ghost var deps := ws.AllDeps();
      ConsiderSeat(ws, b, seen, t, forward);
      GrownDone(ws.cat, forward, deps, ws.AllDeps());
    }
  }

  /** What a started workspace contains: the compiled relations of every candidate,
      and the reverse deps they give rise to. */
  ghost predicate Started(cat: Catalog, providers: seq<seq<Cand>>, deps: seq<seq<Dep>>)
    requires ValidCatalog(cat) && |providers| == cat.seats
  {
    && Derived(cat, Compiled(cat, providers), deps)
    && forall t :: 0 <= t < cat.seats ==> Covered(cat, Compiled(cat, providers), deps, t)
  }

  lemma CompiledForward(cat: Catalog, providers: seq<seq<Cand>>)
    requires ValidCatalog(cat) && ValidProviders(cat, providers)
    ensures AllForward(Compiled(cat, providers))
  {
    var deps := Compiled(cat, providers);
    forall c: nat, d: Dep | c < |deps| && d in deps[c] ensures !d.reversed {
      RulesOfValid(cat, c);
      CompileAllValid(cat, providers, RulesOf(cat, c));
    }
  }

  /** Start a workspace in which nothing has been compiled yet. */
  method Start(ws: Workspace) returns (ghost providers: seq<seq<Cand>>)
    requires ws.Valid() && ws.AllDeps() == seq(|ws.cat.info|, _ => [])
    modifies ws
    ensures ws.Valid() && ws.selected == old(ws.selected)
    ensures ValidProviders(ws.cat, providers) && Started(ws.cat, providers, ws.AllDeps())
  {
    hide Linked, Counted, Tallied, ValidConfig, Derived, Covered, ValidInfo;
    var b := new DepBuilder(|ws.cat.info|);
    var prvs := FindProviders(ws.cat);
    providers := prvs;
    CompiledForward(ws.cat, providers);
    assert ws.AllDeps() == CompiledTo(ws.cat, providers, 0);
    ComputeDeps(ws, b, prvs);
    ComputeReverseDeps(ws, b, Compiled(ws.cat, providers));
  }

  /** All rules of the selected candidates hold. */
  ghost predicate ConfigHolds(cat: Catalog, sel: Selection)
    requires ValidCatalog(cat) && ValidConfig(cat, sel)
  {
    forall s, i :: 0 <= s < |sel| && sel[s] < |cat.info| && 0 <= i < |RulesOf(cat, sel[s])| ==>
      RuleOk(cat, sel, sel[s], i)
  }

  ghost predicate RuleOk(cat: Catalog, sel: Selection, c: Cand, i: nat)
    requires ValidCatalog(cat) && ValidConfig(cat, sel) && c < |cat.info| && i < |RulesOf(cat, c)|
  {
    RulesOfValid(cat, c);
    RuleHolds(cat, sel, RulesOf(cat, c)[i])
  }

  /** In any configuration of a started workspace, all deps of all selected
      candidates are satisfied, the reverse ones included, exactly when all their
      relations hold. */
  lemma StartedMeaning(cat: Catalog, providers: seq<seq<Cand>>, deps: seq<seq<Dep>>, sel: Selection)
    requires ValidCatalog(cat) && ValidProviders(cat, providers) && Started(cat, providers, deps)
    requires ValidConfig(cat, sel)
    ensures forall s :: 0 <= s < |sel| ==> sel[s] < |cat.info|
    ensures ConfigHolds(cat, sel) <==> forall s, d :: 0 <= s < |sel| && d in deps[sel[s]] ==> HoldsIn(cat, sel, d)
  {
    hide ValidCatalog, ValidConfig, RuleHolds, CompileAll, Covered, HoldsIn, DerivedAt, RulesOf;
    var forward := Compiled(cat, providers);
    ConfigInRange(cat, sel);
    forall s | 0 <= s < |sel|
      ensures (forall d :: d in forward[sel[s]] ==> HoldsIn(cat, sel, d)) <==>
              (forall i :: 0 <= i < |RulesOf(cat, sel[s])| ==> RuleOk(cat, sel, sel[s], i))
    {
      assert forward[sel[s]] == CompileCand(cat, providers, sel[s]);
      CandMeaning(cat, providers, sel[s], sel);
    }
    if forall s, d :: 0 <= s < |sel| && d in forward[sel[s]] ==> HoldsIn(cat, sel, d) {
      forall s, d | 0 <= s < |sel| && d in deps[sel[s]] ensures HoldsIn(cat, sel, d) {
        DerivedHolds(cat, forward, deps, sel, s, d);
      }
    }
    forall s, d | 0 <= s < |sel| && d in forward[sel[s]] ensures d in deps[sel[s]] {
      DerivedIncludes(cat, forward, deps, sel[s], d);
    }
  }

  lemma CandMeaning(cat: Catalog, providers: seq<seq<Cand>>, c: Cand, sel: Selection)
    requires ValidCatalog(cat) && ValidProviders(cat, providers) && ValidConfig(cat, sel) && c < |cat.info|
    ensures (forall d :: d in CompileCand(cat, providers, c) ==> HoldsIn(cat, sel, d)) <==>
            (forall i :: 0 <= i < |RulesOf(cat, c)| ==> RuleOk(cat, sel, c, i))
  {
    hide ValidCatalog, ValidConfig, RuleHolds, CompileAll, HoldsIn, RulesOf;
    RulesOfValid(cat, c);
    var rules := RulesOf(cat, c);
    CompileAllMeaning(cat, providers, rules, sel);
    forall i | 0 <= i < |rules| ensures RuleOk(cat, sel, c, i) <==> RuleHolds(cat, sel, rules[i]) {
    }
  }

  lemma ConfigInRange(cat: Catalog, sel: Selection)
    requires ValidCatalog(cat) && ValidConfig(cat, sel)
    ensures forall s :: 0 <= s < |sel| ==> s < cat.seats && OnSeat(cat, sel[s], s) && Chosen(cat, sel, sel[s])
  {
    forall s | 0 <= s < |sel| ensures OnSeat(cat, sel[s], s) {
      var k :| 0 <= k < |cat.members[s]| && cat.members[s][k] == sel[s];
    }
  }

  lemma DerivedIncludes(cat: Catalog, forward: seq<seq<Dep>>, deps: seq<seq<Dep>>, c: Cand, d: Dep)
    requires ValidCatalog(cat) && |forward| == |cat.info| && c < |cat.info|
    requires Derived(cat, forward, deps) && d in forward[c]
    ensures d in deps[c]
  {
    assert DerivedAt(cat, forward, c, deps[c]);
    assert d in deps[c][|deps[c]| - |forward[c]|..];
  }

  /** Where all forward deps hold, the reverse ones do too. */
  lemma DerivedHolds(cat: Catalog, forward: seq<seq<Dep>>, deps: seq<seq<Dep>>, sel: Selection, s: Seat, d: Dep)
    requires ValidCatalog(cat) && |forward| == |cat.info| && Derived(cat, forward, deps) && ValidConfig(cat, sel)
    requires forall r :: 0 <= r < |sel| ==> sel[r] < |cat.info|
    requires forall r, e :: 0 <= r < |sel| && e in forward[sel[r]] ==> HoldsIn(cat, sel, e)
    requires s < |sel| && d in deps[sel[s]]
    ensures HoldsIn(cat, sel, d)
  {
    ConfigInRange(cat, sel);
    var t := sel[s];
    assert DerivedAt(cat, forward, t, deps[t]);
    var n := |deps[t]| - |forward[t]|;
    var k :| 0 <= k < |deps[t]| && deps[t][k] == d;
    if k < n {
      assert IsReverse(cat, forward, t, d);
      var r: nat :| r < cat.seats && IsReverseFor(cat, forward, t, r, d);
      ReverseMeaning(cat, forward, t, r, sel);
      assert ForwardHolds(cat, sel, forward[sel[r]]);
    } else {
      assert d == deps[t][n..][k - n];
    }
  }

  /** The counters answer for the relations: nothing selected is broken exactly
      when all relations of the selected candidates hold. */
  lemma CountersMeanRelations(ws: Workspace, providers: seq<seq<Cand>>)
    requires ws.Valid() && ValidProviders(ws.cat, providers) && Started(ws.cat, providers, ws.AllDeps())
    ensures ConfigHolds(ws.cat, ws.selected) <==>
      forall s :: 0 <= s < |ws.selected| ==> ws.selected[s] < |ws.cat.info| && ws.CandSatisfied(ws.selected[s])
  {
    hide Linked, Counted, Tallied, Started, ConfigHolds, ValidConfig;
    StartedMeaning(ws.cat, providers, ws.AllDeps(), ws.selected);
    forall s | 0 <= s < |ws.selected| ensures ws.AllDeps()[ws.selected[s]] == ws.DepsAt(ws.selected[s]) {
    }
  }
}
