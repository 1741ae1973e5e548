/** What a started workspace says about the relations of packages, in terms of the fields they are
    recorded in and of versions. */
module Meanings {
  import opened Basics
  import opened Network
  import opened Versions
  import opened Catalogs
  import opened ReverseDeps
  import opened Startup
  import opened Workspaces

  /* Relations in a configuration. */

  predicate Within(op: Op, v: string, w: string) {
    || op.Any?
    || (op.Eq? && VersionOrder(v, w) == 0)
    || (op.Less? && VersionOrder(v, w) < 0) || (op.LessEq? && VersionOrder(v, w) <= 0)
    || (op.Greater? && VersionOrder(v, w) > 0) || (op.GreaterEq? && VersionOrder(v, w) >= 0)
  }

  /** The candidate has a version, and it is one that the alternative asks for. */
  predicate Fits(cat: Catalog, c: Cand, alt: Alternative) {
    c < |cat.info| && cat.info[c].version.Some? &&
    Within(alt.op, Chars(cat.info[c].version.value), if alt.version.Some? then Chars(alt.version.value) else "")
  }

  /** The goal can also ask for a package not to be installed. */
  predicate GoalFits(cat: Catalog, c: Cand, alt: Alternative) {
    if alt.op.Eq? && alt.version.None? then c < |cat.info| && cat.info[c].version.None? else Fits(cat, c, alt)
  }

  /** A candidate that is selected provides the package. */
  ghost predicate Supplied(cat: Catalog, sel: Selection, s: Seat) {
    exists c :: 0 <= c < |cat.info| && Supplies(cat, sel, c, s)
  }

  predicate Supplies(cat: Catalog, sel: Selection, c: Cand, s: Seat)
    requires c < |cat.info|
  {
    && cat.info[c].version.Some? && s in cat.info[c].provided
    && cat.info[c].seat < |sel| && sel[cat.info[c].seat] == c
  }

  /** One of the alternatives is selected or provided. */
  ghost predicate Required(cat: Catalog, sel: Selection, alts: seq<Alternative>) {
    exists i :: 0 <= i < |alts| && alts[i].seat < |sel|
      && (Fits(cat, sel[alts[i].seat], alts[i]) || Supplied(cat, sel, alts[i].seat))
  }

  /** What is selected for the package of one of the alternatives is not what it names. */
  ghost predicate Avoided(cat: Catalog, sel: Selection, alts: seq<Alternative>) {
    exists i :: 0 <= i < |alts| && alts[i].seat < |sel| && !Fits(cat, sel[alts[i].seat], alts[i])
  }

  ghost predicate GoalMet(cat: Catalog, sel: Selection, g: GoalRelation) {
    exists i :: 0 <= i < |g.alts| && g.alts[i].seat < |sel|
      && (if g.conf then !GoalFits(cat, sel[g.alts[i].seat], g.alts[i])
          else GoalFits(cat, sel[g.alts[i].seat], g.alts[i]) || Supplied(cat, sel, g.alts[i].seat))
  }

  ghost predicate UglySelected(cat: Catalog, sel: Selection) {
    cat.ugly < |cat.info| && cat.info[cat.ugly].seat < |sel| && sel[cat.info[cat.ugly].seat] == cat.ugly
  }

  /** Where a dep comes from: a relation of a field, or of the goal. */
  datatype Source = From(field: Option<RelType>, index: nat)

  /** The fields in the order they are compiled. */
  function Place(field: Option<RelType>): nat {
    match field
    case Some(PreDepends) => 0
    case Some(Depends) => 1
    case Some(Recommends) => 2
    case Some(Conflicts) => 3
    case Some(Breaks) => 4
    case None => 5
    case _ => 6
  }

  /** How many relations a candidate has in a field; the goal relations belong to the goal candidate. */
  function Size(cat: Catalog, c: Cand, field: Option<RelType>): nat
    requires c < |cat.info|
  {
    var r := cat.info[c];
    match field
    case None => if c == cat.goal then |cat.goalSpec| else 0
    case Some(f) =>
      if r.version.None? then 0
      else
        match f
        case PreDepends => |r.preDepends|
        case Depends => |r.depends|
        case Recommends => |r.recommends|
        case Conflicts => |r.conflicts|
        case Breaks => |r.breaks|
        case _ => 0
  }

  ghost predicate Has(cat: Catalog, c: Cand, o: Source)
    requires c < |cat.info|
  {
    o.index < Size(cat, c, o.field)
  }

  /** The relation holds in the configuration. */
  ghost predicate Holding(cat: Catalog, sel: Selection, c: Cand, o: Source)
    requires c < |cat.info| && Has(cat, c, o)
  {
    var r := cat.info[c];
    match o.field
    case None => GoalMet(cat, sel, cat.goalSpec[o.index])
    case Some(PreDepends) => Required(cat, sel, r.preDepends[o.index])
    case Some(Depends) => Required(cat, sel, r.depends[o.index])
    case Some(Recommends) => Required(cat, sel, r.recommends[o.index]) || UglySelected(cat, sel)
    case Some(Conflicts) => Avoided(cat, sel, r.conflicts[o.index])
    case Some(Breaks) => Avoided(cat, sel, r.breaks[o.index])
    case _ => true
  }

  ghost predicate AllHold(cat: Catalog, sel: Selection, c: Cand)
    requires c < |cat.info|
  {
    forall o :: Has(cat, c, o) ==> Holding(cat, sel, c, o)
  }

  /* The rules are the relations. */

  /** The place of a relation among the rules of its candidate. */
  function RulePlace(cat: Catalog, c: Cand, o: Source): nat
    requires c < |cat.info|
  {
    var r := cat.info[c];
    o.index +
    match Place(o.field)
    case 0 => 0
    case 1 => Size(cat, c, Some(PreDepends))
    case 2 => Size(cat, c, Some(PreDepends)) + Size(cat, c, Some(Depends))
    case 3 => Size(cat, c, Some(PreDepends)) + Size(cat, c, Some(Depends)) + Size(cat, c, Some(Recommends))
    case 4 =>
      Size(cat, c, Some(PreDepends)) + Size(cat, c, Some(Depends)) + Size(cat, c, Some(Recommends))
      + Size(cat, c, Some(Conflicts))
    case _ =>
      Size(cat, c, Some(PreDepends)) + Size(cat, c, Some(Depends)) + Size(cat, c, Some(Recommends))
      + Size(cat, c, Some(Conflicts)) + Size(cat, c, Some(Breaks))
  }

  /** The relation that a rule comes from. */
  lemma SourceOf(cat: Catalog, c: Cand, i: nat) returns (o: Source)
    requires c < |cat.info| && i < |RulesOf(cat, c)|
    ensures Has(cat, c, o) && RulePlace(cat, c, o) == i
  {
    var r := cat.info[c];
    var n0, n1, n2, n3, n4 := Size(cat, c, Some(PreDepends)), Size(cat, c, Some(Depends)),
      Size(cat, c, Some(Recommends)), Size(cat, c, Some(Conflicts)), Size(cat, c, Some(Breaks));
    if i < n0 {
      o := From(Some(PreDepends), i);
    } else if i < n0 + n1 {
      o := From(Some(Depends), i - n0);
    } else if i < n0 + n1 + n2 {
      o := From(Some(Recommends), i - n0 - n1);
    } else if i < n0 + n1 + n2 + n3 {
      o := From(Some(Conflicts), i - n0 - n1 - n2);
    } else if i < n0 + n1 + n2 + n3 + n4 {
      o := From(Some(Breaks), i - n0 - n1 - n2 - n3);
    } else {
      o := From(None, i - n0 - n1 - n2 - n3 - n4);
    }
  }

  /** The rule of a relation. */
  lemma RuleAt(cat: Catalog, c: Cand, o: Source)
    requires c < |cat.info| && Has(cat, c, o)
    ensures RulePlace(cat, c, o) < |RulesOf(cat, c)|
    ensures RulesOf(cat, c)[RulePlace(cat, c, o)] == RuleFor(cat, c, o)
  {
    hide RulesOf, RulePlace, RuleFor;
    match o.field
    case None => GoalRuleAt(cat, c, o);
    case Some(PreDepends) => NeedRuleAt(cat, c, o);
    case Some(Depends) => NeedRuleAt(cat, c, o);
    case Some(Recommends) => NeedRuleAt(cat, c, o);
    case Some(_) => ConflictRuleAt(cat, c, o);
  }

  lemma GoalRuleAt(cat: Catalog, c: Cand, o: Source)
    requires c < |cat.info| && Has(cat, c, o) && o.field.None?
    ensures RulePlace(cat, c, o) < |RulesOf(cat, c)|
    ensures RulesOf(cat, c)[RulePlace(cat, c, o)] == RuleFor(cat, c, o)
  {
  }

  lemma NeedRuleAt(cat: Catalog, c: Cand, o: Source)
    requires c < |cat.info| && Has(cat, c, o) && o.field.Some?
    requires o.field.value.PreDepends? || o.field.value.Depends? || o.field.value.Recommends?
    ensures RulePlace(cat, c, o) < |RulesOf(cat, c)|
    ensures RulesOf(cat, c)[RulePlace(cat, c, o)] == RuleFor(cat, c, o)
  {
  }

  lemma ConflictRuleAt(cat: Catalog, c: Cand, o: Source)
    requires c < |cat.info| && Has(cat, c, o) && o.field.Some?
    requires o.field.value.Conflicts? || o.field.value.Breaks?
    ensures RulePlace(cat, c, o) < |RulesOf(cat, c)|
    ensures RulesOf(cat, c)[RulePlace(cat, c, o)] == RuleFor(cat, c, o)
  {
  }

  function RuleFor(cat: Catalog, c: Cand, o: Source): Rule
    requires c < |cat.info| && o.index < Size(cat, c, o.field)
  {
    var r := cat.info[c];
    match o.field
    case None => Rule(None, cat.goalSpec[o.index].conf, false, true, cat.goalSpec[o.index].alts)
    case Some(PreDepends) => Rule(o.field, false, false, false, r.preDepends[o.index])
    case Some(Depends) => Rule(o.field, false, false, false, r.depends[o.index])
    case Some(Recommends) => Rule(o.field, false, true, false, r.recommends[o.index])
    case Some(Conflicts) => Rule(o.field, true, false, false, r.conflicts[o.index])
    case Some(Breaks) => Rule(o.field, true, false, false, r.breaks[o.index])
  }

  lemma MatchesFits(cat: Catalog, c: Cand, goal: bool, alt: Alternative)
    requires c < |cat.info|
    ensures Matches(cat, c, goal, alt) <==> if goal then GoalFits(cat, c, alt) else Fits(cat, c, alt)
  {
    hide VersionOrder, Ends, Plain;
    assert Chars(NO_TEXT) == "";
  }

  lemma AlternativeMeans(cat: Catalog, sel: Selection, r: Rule, alt: Alternative)
    requires ValidCatalog(cat) && ValidConfig(cat, sel) && alt.seat < cat.seats
    ensures AlternativeHolds(cat, sel, r, alt) <==>
      var fits := if r.goal then GoalFits(cat, sel[alt.seat], alt) else Fits(cat, sel[alt.seat], alt);
      if r.conf then !fits else fits || Supplied(cat, sel, alt.seat)
  {
    hide Fits, GoalFits, Matches, ValidCatalog, ValidInfo;
    ConfigInRange(cat, sel);
    MatchesFits(cat, sel[alt.seat], r.goal, alt);
    forall c: nat | c < |cat.info|
      ensures IsProvider(cat, c, alt.seat) && Chosen(cat, sel, c) <==> Supplies(cat, sel, c, alt.seat)
    {
    }
  }

  lemma RuleMeans(cat: Catalog, sel: Selection, c: Cand, o: Source)
    requires ValidCatalog(cat) && ValidConfig(cat, sel) && c < |cat.info| && Has(cat, c, o)
    ensures ValidAlternatives(cat, RuleFor(cat, c, o).alts)
    ensures RuleHolds(cat, sel, RuleFor(cat, c, o)) <==> Holding(cat, sel, c, o)
  {
    hide Fits, GoalFits, AlternativeHolds, Supplied, ValidConfig;
    var r := RuleFor(cat, c, o);
    RulesOfValid(cat, c);
    RuleAt(cat, c, o);
    SizeIs(cat, sel);
    forall i | 0 <= i < |r.alts|
      ensures r.alts[i].seat < |sel|
      ensures AlternativeHolds(cat, sel, r, r.alts[i]) <==>
        var fits := if r.goal then GoalFits(cat, sel[r.alts[i].seat], r.alts[i])
                    else Fits(cat, sel[r.alts[i].seat], r.alts[i]);
        if r.conf then !fits else fits || Supplied(cat, sel, r.alts[i].seat)
    {
      AlternativeMeans(cat, sel, r, r.alts[i]);
    }
  }

  lemma SizeIs(cat: Catalog, sel: Selection)
    requires ValidConfig(cat, sel)
    ensures |sel| == cat.seats
  {
  }

  /** All deps of all selected candidates, those derived in reverse included, are satisfied exactly when
      all relations of the selected candidates hold. */
  lemma WorkspaceMeaning(cat: Catalog, providers: seq<seq<Cand>>, deps: seq<seq<Dep>>, sel: Selection)
    requires ValidCatalog(cat) && ValidProviders(cat, providers) && Started(cat, providers, deps)
    requires ValidConfig(cat, sel)
    ensures forall s :: 0 <= s < |sel| ==> sel[s] < |cat.info|
    ensures (forall s :: 0 <= s < |sel| ==> AllHold(cat, sel, sel[s])) <==>
      forall s, d :: 0 <= s < |sel| && d in deps[sel[s]] ==> HoldsIn(cat, sel, d)
  {
    hide ValidCatalog, ValidConfig, Started, HoldsIn, AllHold;
    StartedMeaning(cat, providers, deps, sel);
    forall s | 0 <= s < |sel|
      ensures AllHold(cat, sel, sel[s]) <==>
        forall i :: 0 <= i < |RulesOf(cat, sel[s])| ==> RuleOk(cat, sel, sel[s], i)
    {
      RulesMean(cat, sel, sel[s]);
    }
  }

  lemma RulesMean(cat: Catalog, sel: Selection, c: Cand)
    requires ValidCatalog(cat) && ValidConfig(cat, sel) && c < |cat.info|
    ensures AllHold(cat, sel, c) <==> forall i :: 0 <= i < |RulesOf(cat, c)| ==> RuleOk(cat, sel, c, i)
  {
    hide ValidCatalog, ValidConfig, RuleHolds, Holding, RulesOf, Size, RulePlace;
    RulesOfValid(cat, c);
    forall o | Has(cat, c, o)
      ensures RulePlace(cat, c, o) < |RulesOf(cat, c)|
      ensures Holding(cat, sel, c, o) <==> RuleOk(cat, sel, c, RulePlace(cat, c, o))
    {
      RuleAt(cat, c, o);
      RuleMeans(cat, sel, c, o);
    }
    if AllHold(cat, sel, c) {
      forall i | 0 <= i < |RulesOf(cat, c)|
        ensures RuleOk(cat, sel, c, i)
      {
        var o := SourceOf(cat, c, i);
        assert Holding(cat, sel, c, o);
      }
    }
  }

  /* Where deps come from. */

  /** The deps of some rules: the indices of the rules they are made of, the last one first. */
  ghost predicate MadeOf(cat: Catalog, providers: seq<seq<Cand>>, rules: seq<Rule>, deps: seq<Dep>, made: seq<nat>)
    requires ValidCatalog(cat) && ValidRules(cat, rules) && |providers| == cat.seats
  {
    && |made| == |deps|
    && (forall k :: 0 <= k < |made| ==> made[k] < |rules| && DepOf(cat, providers, rules[made[k]], deps[k]))
    && (forall k, l :: 0 <= k < l < |made| ==> made[l] < made[k])
    && forall i :: 0 <= i < |rules| && i !in made ==> CompileRule(cat, providers, rules[i]).None?
  }

  ghost predicate DepOf(cat: Catalog, providers: seq<seq<Cand>>, r: Rule, d: Dep)
    requires ValidCatalog(cat) && ValidAlternatives(cat, r.alts) && |providers| == cat.seats
  {
    CompileRule(cat, providers, r).Some? && d == Dep(CompileRule(cat, providers, r).value, r.field, false, false)
  }

  lemma {:induction false} CompiledFrom(cat: Catalog, providers: seq<seq<Cand>>, rules: seq<Rule>)
    returns (made: seq<nat>)
    requires ValidCatalog(cat) && ValidRules(cat, rules) && |providers| == cat.seats
    ensures MadeOf(cat, providers, rules, CompileAll(cat, providers, rules), made)
  {
    hide CompileRule, ValidCatalog, DepOf;
    if rules == [] {
      made := [];
    } else {
      var n := |rules| - 1;
      var before := CompiledFrom(cat, providers, rules[..n]);
      MadeStep(cat, providers, rules[..n], CompileAll(cat, providers, rules[..n]), before, rules[n]);
      assert rules[..n] + [rules[n]] == rules;
      made := if CompileRule(cat, providers, rules[n]).None? then before else [n] + before;
    }
  }

  lemma MadeStep(cat: Catalog, providers: seq<seq<Cand>>, rules: seq<Rule>, deps: seq<Dep>, made: seq<nat>, r: Rule)
    requires ValidCatalog(cat) && ValidRules(cat, rules + [r]) && ValidRules(cat, rules) && |providers| == cat.seats
    requires ValidAlternatives(cat, r.alts) && MadeOf(cat, providers, rules, deps, made)
    ensures CompileRule(cat, providers, r).None? ==> MadeOf(cat, providers, rules + [r], deps, made)
    ensures CompileRule(cat, providers, r).Some? ==>
      MadeOf(cat, providers, rules + [r], [Dep(CompileRule(cat, providers, r).value, r.field, false, false)] + deps,
             [|rules|] + made)
  {
    hide CompileRule, ValidCatalog;
    var all := rules + [r];
    assert forall i :: 0 <= i < |rules| ==> all[i] == rules[i];
  }

  /** The dep is satisfied where the relation holds, in every configuration. */
  ghost predicate StandsFor(cat: Catalog, d: Dep, c: Cand, o: Source)
    requires ValidCatalog(cat) && c < |cat.info| && Has(cat, c, o)
  {
    forall sel :: ValidConfig(cat, sel) ==> (HoldsIn(cat, sel, d) <==> Holding(cat, sel, c, o))
  }

  ghost predicate AlwaysHolds(cat: Catalog, c: Cand, o: Source)
    requires ValidCatalog(cat) && c < |cat.info| && Has(cat, c, o)
  {
    forall sel :: ValidConfig(cat, sel) ==> Holding(cat, sel, c, o)
  }

  /** Relations of later fields, and later ones of a field, come first. */
  predicate Earlier(o: Source, p: Source) {
    Place(o.field) < Place(p.field) || (Place(o.field) == Place(p.field) && o.index < p.index)
  }

  /** The deps stand for relations of the fields they are marked with, in this order; the relations
      without a dep hold in every configuration. */
  ghost predicate Sources(cat: Catalog, c: Cand, deps: seq<Dep>, from: seq<Source>)
    requires ValidCatalog(cat) && c < |cat.info|
  {
    && |from| == |deps|
    && (forall k :: 0 <= k < |deps| ==> Has(cat, c, from[k]) && StandsFor(cat, deps[k], c, from[k]))
    && (forall k :: 0 <= k < |deps| ==> deps[k].rel == from[k].field && !deps[k].reversed && !deps[k].reversedConflict)
    && (forall k, l :: 0 <= k < l < |from| ==> Earlier(from[l], from[k]))
    && forall o :: Has(cat, c, o) && o !in from ==> AlwaysHolds(cat, c, o)
  }

  lemma RuleStands(cat: Catalog, providers: seq<seq<Cand>>, c: Cand, o: Source)
    requires ValidCatalog(cat) && ValidProviders(cat, providers) && c < |cat.info| && Has(cat, c, o)
    ensures ValidAlternatives(cat, RuleFor(cat, c, o).alts)
    ensures CompileRule(cat, providers, RuleFor(cat, c, o)).None? ==> AlwaysHolds(cat, c, o)
    ensures forall d :: DepOf(cat, providers, RuleFor(cat, c, o), d) ==> StandsFor(cat, d, c, o)
  {
    hide CompileRule, ValidCatalog, ValidConfig, RuleHolds, Holding, RuleFor, Size;
    var r := RuleFor(cat, c, o);
    RuleValid(cat, c, o);
    forall sel | ValidConfig(cat, sel)
      ensures CompileRule(cat, providers, r).None? ==> Holding(cat, sel, c, o)
      ensures forall d :: DepOf(cat, providers, r, d) ==> (HoldsIn(cat, sel, d) <==> Holding(cat, sel, c, o))
    {
      RuleMeans(cat, sel, c, o);
      CompileMeaning(cat, providers, r, sel);
    }
  }

  lemma RuleValid(cat: Catalog, c: Cand, o: Source)
    requires ValidCatalog(cat) && c < |cat.info| && Has(cat, c, o)
    ensures ValidAlternatives(cat, RuleFor(cat, c, o).alts)
  {
    RulesOfValid(cat, c);
    RuleAt(cat, c, o);
  }

  lemma PlacesOrdered(cat: Catalog, c: Cand, o: Source, p: Source)
    requires c < |cat.info| && Has(cat, c, o) && Has(cat, c, p)
    ensures RulePlace(cat, c, o) < RulePlace(cat, c, p) ==> Earlier(o, p)
    ensures RulePlace(cat, c, o) == RulePlace(cat, c, p) ==> o == p
  {
  }

  /** The compiled deps of a candidate and the relations they stand for. */
  lemma DepsComeFrom(cat: Catalog, providers: seq<seq<Cand>>, c: Cand) returns (from: seq<Source>)
    requires ValidCatalog(cat) && ValidProviders(cat, providers) && c < |cat.info|
    ensures Sources(cat, c, CompileCand(cat, providers, c), from)
  {
    hide ValidCatalog, CompileRule, CompileAll, StandsFor, AlwaysHolds, RulesOf, RulePlace, RuleFor, Has, Earlier;
    RulesOfValid(cat, c);
    var rules, deps := RulesOf(cat, c), CompileCand(cat, providers, c);
    var made := CompiledFrom(cat, providers, rules);
    from := [];
    while |from| < |made|
      invariant |from| <= |made|
      invariant forall k :: 0 <= k < |from| ==> Has(cat, c, from[k]) && RulePlace(cat, c, from[k]) == made[k]
    {
      var o := SourceOf(cat, c, made[|from|]);
      from := from + [o];
    }
    forall k | 0 <= k < |deps|
      ensures Has(cat, c, from[k]) && StandsFor(cat, deps[k], c, from[k])
      ensures deps[k].rel == from[k].field && !deps[k].reversed && !deps[k].reversedConflict
    {
      RuleAt(cat, c, from[k]);
      RuleStands(cat, providers, c, from[k]);
      FieldOf(cat, c, from[k]);
    }
    forall k, l | 0 <= k < l < |from|
      ensures Earlier(from[l], from[k])
    {
      PlacesOrdered(cat, c, from[l], from[k]);
    }
    forall o | Has(cat, c, o) && o !in from
      ensures AlwaysHolds(cat, c, o)
    {
      RuleAt(cat, c, o);
      RuleStands(cat, providers, c, o);
      if k :| 0 <= k < |made| && made[k] == RulePlace(cat, c, o) {
        PlacesOrdered(cat, c, o, from[k]);
      }
    }
  }

  lemma FieldOf(cat: Catalog, c: Cand, o: Source)
    requires c < |cat.info| && Has(cat, c, o)
    ensures RuleFor(cat, c, o).field == o.field
  {
  }

  /* Derived deps. */

  /** The dep is met by another candidate of the package of `t`, but not by `t`. */
  predicate Minds(cat: Catalog, t: Cand, e: Dep)
    requires t < |cat.info|
  {
    !e.reversed && t !in e.alts && exists a :: a in e.alts && a < |cat.info| && cat.info[a].seat == cat.info[t].seat
  }

  /** What may be selected besides `t` as far as `c` is concerned: `c` itself if it does not mind `t`, else
      what its deps allow instead. */
  ghost predicate Instead(cat: Catalog, t: Cand, c: Cand, deps: seq<Dep>, a: Cand)
    requires t < |cat.info|
  {
    || (a == c && forall e :: e in deps ==> !Minds(cat, t, e))
    || (a < |cat.info| && cat.info[a].seat != cat.info[t].seat
        && exists e :: e in deps && Minds(cat, t, e) && a in e.alts)
  }

  /** The dep of `t` derived from the deps of the candidates of a seat. */
  ghost predicate Mirrors(cat: Catalog, forward: seq<seq<Dep>>, t: Cand, s: Seat, d: Dep)
    requires t < |cat.info| == |forward| && s < |cat.members|
  {
    var cs := cat.members[s];
    && d.rel == None && d.reversed
    && (d.reversedConflict <==> exists c :: c in cs && c < |forward| && ConflictMinds(cat, t, forward[c]))
    && (exists c :: c in cs && c < |forward| && SomeMinds(cat, t, forward[c]))
    && forall a :: a in d.alts <==> exists c :: c in cs && c < |forward| && Instead(cat, t, c, forward[c], a)
  }

  ghost predicate MirrorsSome(cat: Catalog, forward: seq<seq<Dep>>, t: Cand, d: Dep)
    requires t < |cat.info| == |forward|
  {
    exists s: nat :: s < |cat.members| && Mirrors(cat, forward, t, s, d)
  }

  predicate SomeMinds(cat: Catalog, t: Cand, deps: seq<Dep>)
    requires t < |cat.info|
  {
    exists e :: e in deps && Minds(cat, t, e)
  }

  predicate ConflictMinds(cat: Catalog, t: Cand, deps: seq<Dep>)
    requires t < |cat.info|
  {
    exists e :: e in deps && Minds(cat, t, e) && e.rel == Some(Conflicts)
  }

  lemma MindsIs(cat: Catalog, t: Cand, e: Dep)
    requires t < |cat.info|
    ensures OnSibling(cat, t, e) <==> Minds(cat, t, e)
  {
  }

  lemma InsteadIs(cat: Catalog, t: Cand, c: Cand, deps: seq<Dep>, a: Cand)
    requires t < |cat.info|
    ensures Contributes(cat, t, c, deps, a) <==> Instead(cat, t, c, deps, a)
    ensures HasSiblingDep(cat, t, deps) <==> SomeMinds(cat, t, deps)
    ensures HasConflict(cat, t, deps) <==> ConflictMinds(cat, t, deps)
  {
    hide OnSibling, Minds;
    forall e ensures OnSibling(cat, t, e) <==> Minds(cat, t, e) {
      MindsIs(cat, t, e);
    }
  }

  lemma ReverseMirrors(cat: Catalog, forward: seq<seq<Dep>>, t: Cand, s: Seat, d: Dep)
    requires ValidCatalog(cat) && |forward| == |cat.info| && t < |cat.info| && s < cat.seats
    requires IsReverseFor(cat, forward, t, s, d)
    ensures Mirrors(cat, forward, t, s, d)
  {
    hide Contributes, Instead, HasSiblingDep, SomeMinds, HasConflict, ConflictMinds, ReverseAlts;
    MembersAre(cat, s);
    var cs := cat.members[s];
    ReverseAltsMembers(cat, forward, t, cs);
    forall c, a | c in cs
      ensures c < |forward|
      ensures Contributes(cat, t, c, forward[c], a) <==> Instead(cat, t, c, forward[c], a)
      ensures HasSiblingDep(cat, t, forward[c]) <==> SomeMinds(cat, t, forward[c])
      ensures HasConflict(cat, t, forward[c]) <==> ConflictMinds(cat, t, forward[c])
    {
      var i :| 0 <= i < |cs| && cs[i] == c;
      InsteadIs(cat, t, c, forward[c], a);
    }
    forall a
      ensures a in d.alts <==> exists c :: c in cs && c < |forward| && Instead(cat, t, c, forward[c], a)
    {
      if a in d.alts {
        var i :| 0 <= i < |cs| && Contributes(cat, t, cs[i], forward[cs[i]], a);
        assert Instead(cat, t, cs[i], forward[cs[i]], a);
      }
      if c :| c in cs && c < |forward| && Instead(cat, t, c, forward[c], a) {
        var i :| 0 <= i < |cs| && cs[i] == c;
        assert Contributes(cat, t, cs[i], forward[cs[i]], a);
      }
    }
    MirrorFlags(cat, forward, t, s);
  }

  lemma MirrorFlags(cat: Catalog, forward: seq<seq<Dep>>, t: Cand, s: Seat)
    requires ValidCatalog(cat) && |forward| == |cat.info| && t < |cat.info| && s < cat.seats
    ensures forall i :: 0 <= i < |cat.members[s]| ==> cat.members[s][i] < |cat.info|
    ensures ReverseConflict(cat, forward, t, cat.members[s]) <==>
      exists c :: c in cat.members[s] && c < |forward| && ConflictMinds(cat, t, forward[c])
    ensures Trivial(cat, forward, t, cat.members[s]) <==>
      !exists c :: c in cat.members[s] && c < |forward| && SomeMinds(cat, t, forward[c])
  {
    hide HasSiblingDep, SomeMinds, HasConflict, ConflictMinds;
    MembersAre(cat, s);
    var cs := cat.members[s];
    forall i | 0 <= i < |cs|
      ensures cs[i] in cs
      ensures HasSiblingDep(cat, t, forward[cs[i]]) <==> SomeMinds(cat, t, forward[cs[i]])
      ensures HasConflict(cat, t, forward[cs[i]]) <==> ConflictMinds(cat, t, forward[cs[i]])
    {
      InsteadIs(cat, t, cs[i], forward[cs[i]], 0);
    }
    if ReverseConflict(cat, forward, t, cs) {
      var i :| 0 <= i < |cs| && HasConflict(cat, t, forward[cs[i]]);
      assert ConflictMinds(cat, t, forward[cs[i]]);
    }
    if !Trivial(cat, forward, t, cs) {
      var i :| 0 <= i < |cs| && HasSiblingDep(cat, t, forward[cs[i]]);
      assert SomeMinds(cat, t, forward[cs[i]]);
    }
  }

  /** The deps of a candidate of a started workspace: first `n` that mirror the deps of others, one at least
      for every seat with a candidate that minds this one; then those that stand for its relations. */
  lemma StartedDeps(cat: Catalog, providers: seq<seq<Cand>>, deps: seq<seq<Dep>>, t: Cand)
    returns (n: nat, from: seq<Source>)
    requires ValidCatalog(cat) && ValidProviders(cat, providers) && Started(cat, providers, deps) && t < |cat.info|
    ensures |deps| == |cat.info| && n <= |deps[t]| && Sources(cat, t, deps[t][n..], from)
    ensures forall k :: 0 <= k < n ==> MirrorsSome(cat, Compiled(cat, providers), t, deps[t][k])
    ensures forall c :: 0 <= c < |cat.info| && SomeMinds(cat, t, Compiled(cat, providers)[c]) ==>
      exists d :: d in deps[t] && Mirrors(cat, Compiled(cat, providers), t, cat.info[c].seat, d)
  {
    hide Mirrors, MirrorsSome, Sources, IsReverseFor, CompileCand, SomeMinds, ValidConfig, ReverseConflict, ReverseAlts;
    hide ValidCatalog, CompileAll, DependsOn, Covered, ReverseOf, ReverseDone;
    var forward := Compiled(cat, providers);
    SeatsInside(cat);
    from := DepsComeFrom(cat, providers, t);
    assert DerivedAt(cat, forward, t, deps[t]);
    n := |deps[t]| - |forward[t]|;
    forall k | 0 <= k < n
      ensures MirrorsSome(cat, forward, t, deps[t][k])
    {
      var s: nat :| s < cat.seats && IsReverseFor(cat, forward, t, s, deps[t][k]);
      ReverseMirrors(cat, forward, t, s, deps[t][k]);
      MirrorFound(cat, forward, t, s, deps[t][k]);
    }
    forall c | 0 <= c < |cat.info| && SomeMinds(cat, t, forward[c])
      ensures exists d :: d in deps[t] && Mirrors(cat, forward, t, cat.info[c].seat, d)
    {
      var d := MindedCovered(cat, forward, deps, t, c);
    }
  }

  lemma MirrorFound(cat: Catalog, forward: seq<seq<Dep>>, t: Cand, s: nat, d: Dep)
    requires t < |cat.info| == |forward| && s < |cat.members| && Mirrors(cat, forward, t, s, d)
    ensures MirrorsSome(cat, forward, t, d)
  {
    hide Mirrors;
  }

  lemma SeatsInside(cat: Catalog)
    requires ValidCatalog(cat)
    ensures |cat.members| == cat.seats && forall c :: 0 <= c < |cat.info| ==> cat.info[c].seat < cat.seats
  {
    forall c | 0 <= c < |cat.info| ensures cat.info[c].seat < cat.seats {
      assert ValidInfo(cat, cat.info[c]);
    }
  }

  lemma MindedCovered(cat: Catalog, forward: seq<seq<Dep>>, deps: seq<seq<Dep>>, t: Cand, c: Cand) returns (d: Dep)
    requires ValidCatalog(cat) && |forward| == |cat.info| == |deps| && t < |cat.info| && c < |cat.info|
    requires forall s :: 0 <= s < cat.seats ==> Covered(cat, forward, deps, s)
    requires SomeMinds(cat, t, forward[c])
    ensures d in deps[t] && cat.info[c].seat < cat.seats && Mirrors(cat, forward, t, cat.info[c].seat, d)
  {
    hide Mirrors, ReverseConflict, ReverseAlts, Trivial;
    var e :| e in forward[c] && Minds(cat, t, e);
    var a :| a in e.alts && a < |cat.info| && cat.info[a].seat == cat.info[t].seat;
    var s, r := cat.info[c].seat, cat.info[t].seat;
    assert ValidInfo(cat, cat.info[c]) && ValidInfo(cat, cat.info[t]);
    assert DependsOn(cat, forward, s, a);
    assert Covered(cat, forward, deps, r);
    assert SeatDone(cat, forward, deps, r, s);
    assert ReverseDone(cat, forward, deps, t, s);
    assert c in cat.members[s];
    MirrorFlags(cat, forward, t, s);
    d := ReverseOf(cat, forward, t, s);
    ReverseMirrors(cat, forward, t, s, d);
  }

  /** The counters of the selected candidates are all zero exactly when all their relations hold. */
  lemma CountersMeanFields(ws: Workspace, providers: seq<seq<Cand>>)
    requires ws.Valid() && ValidProviders(ws.cat, providers) && Started(ws.cat, providers, ws.AllDeps())
    ensures forall s :: 0 <= s < |ws.selected| ==> ws.selected[s] < |ws.cat.info|
    ensures (forall s :: 0 <= s < |ws.selected| ==> AllHold(ws.cat, ws.selected, ws.selected[s])) <==>
      forall s :: 0 <= s < |ws.selected| ==> ws.CandSatisfied(ws.selected[s])
  {
    hide Linked, Counted, Tallied, Started, ConfigHolds, ValidConfig, AllHold;
    WorkspaceMeaning(ws.cat, providers, ws.AllDeps(), ws.selected);
    CountersMeanRelations(ws, providers);
    StartedMeaning(ws.cat, providers, ws.AllDeps(), ws.selected);
  }

  /* The order of alternatives. */

  /** A sequence without what was there before. */
  function Firsts(xs: seq<Cand>): (r: seq<Cand>)
    ensures forall x :: x in r <==> x in xs
  {
    if xs == [] then []
    else
      var n := |xs| - 1;
      assert xs == xs[..n] + [xs[n]];
      Firsts(xs[..n]) + if xs[n] in xs[..n] then [] else [xs[n]]
  }

  /** The candidates that an alternative asks for, or in a conflict those that it does not name. */
  function Asked(cat: Catalog, cs: seq<Cand>, conf: bool, goal: bool, alt: Alternative): seq<Cand> {
    if cs == [] then []
    else
      var n := |cs| - 1;
      var fits := if goal then GoalFits(cat, cs[n], alt) else Fits(cat, cs[n], alt);
      Asked(cat, cs[..n], conf, goal, alt) + if fits != conf then [cs[n]] else []
  }

  /** For one alternative after the other: those of its package, then the providers, except in conflicts. */
  function Candidates(cat: Catalog, providers: seq<seq<Cand>>, conf: bool, goal: bool, alts: seq<Alternative>)
    : seq<Cand>
    requires |providers| == cat.seats == |cat.members| && ValidAlternatives(cat, alts)
  {
    if alts == [] then []
    else
      var n := |alts| - 1;
      Candidates(cat, providers, conf, goal, alts[..n])
      + Asked(cat, cat.members[alts[n].seat], conf, goal, alts[n])
      + if conf then [] else providers[alts[n].seat]
  }

  lemma AddNewFirsts(xs: seq<Cand>, c: Cand)
    ensures AddNew(Firsts(xs), c) == Firsts(xs + [c])
  {
    assert (xs + [c])[..|xs|] == xs;
  }

  lemma {:induction false} AskedFirsts(cat: Catalog, xs: seq<Cand>, cs: seq<Cand>, r: Rule, alt: Alternative)
    requires forall i :: 0 <= i < |cs| ==> cs[i] < |cat.info|
    ensures AddMatching(Firsts(xs), cs, Satisfying(cat, r, alt)) == Firsts(xs + Asked(cat, cs, r.conf, r.goal, alt))
  {
    hide Firsts, AddNew, Matches, Fits, GoalFits;
    if cs == [] {
      assert xs + [] == xs;
    } else {
      var n := |cs| - 1;
      AskedFirsts(cat, xs, cs[..n], r, alt);
      MatchesFits(cat, cs[n], r.goal, alt);
      assert Satisfying(cat, r, alt)(cs[n]) == (Matches(cat, cs[n], r.goal, alt) != r.conf);
      var before := Asked(cat, cs[..n], r.conf, r.goal, alt);
      AddNewFirsts(xs + before, cs[n]);
      assert xs + (before + [cs[n]]) == xs + before + [cs[n]];
      assert xs + (before + []) == xs + before;
    }
  }

  lemma {:induction false} ProvidingFirsts(cat: Catalog, xs: seq<Cand>, cs: seq<Cand>, r: Rule)
    requires forall i :: 0 <= i < |cs| ==> cs[i] < |cat.info| && cat.info[cs[i]].version.Some?
    ensures AddMatching(Firsts(xs), cs, Providing(cat, r)) == Firsts(xs + if r.conf then [] else cs)
  {
    hide Firsts, AddNew;
    assert xs + [] == xs;
    if cs == [] {
      assert xs + cs == xs;
    } else {
      var n := |cs| - 1;
      ProvidingFirsts(cat, xs, cs[..n], r);
      assert Providing(cat, r)(cs[n]) == !r.conf;
      if !r.conf {
        AddNewFirsts(xs + cs[..n], cs[n]);
        assert xs + cs[..n] + [cs[n]] == xs + cs;
      }
    }
  }

  lemma {:induction false} CompileOrdered(cat: Catalog, providers: seq<seq<Cand>>, r: Rule, n: nat)
    requires ValidCatalog(cat) && ValidAlternatives(cat, r.alts) && ValidProviders(cat, providers) && n <= |r.alts|
    ensures |cat.members| == cat.seats && ValidAlternatives(cat, r.alts[..n])
    ensures Compile(cat, providers, r, n).Some? ==>
      Compile(cat, providers, r, n).value == Firsts(Candidates(cat, providers, r.conf, r.goal, r.alts[..n]))
  {
    hide AddMatching, Firsts, Asked, Satisfying, Providing, ValidInfo;
    if n == 0 {
      FirstsOfNone();
    } else {
      CompileOrdered(cat, providers, r, n - 1);
      assert r.alts[..n][..n - 1] == r.alts[..n - 1];
      var xs, alt := Candidates(cat, providers, r.conf, r.goal, r.alts[..n - 1]), r.alts[n - 1];
      MembersAre(cat, alt.seat);
      AskedFirsts(cat, xs, cat.members[alt.seat], r, alt);
      var ys := xs + Asked(cat, cat.members[alt.seat], r.conf, r.goal, alt);
      forall i | 0 <= i < |providers[alt.seat]|
        ensures providers[alt.seat][i] < |cat.info| && cat.info[providers[alt.seat][i]].version.Some?
      {
        assert providers[alt.seat][i] in providers[alt.seat];
        assert IsProvider(cat, providers[alt.seat][i], alt.seat);
      }
      ProvidingFirsts(cat, ys, providers[alt.seat], r);
      assert ys + [] == ys;
    }
  }

  lemma FirstsOfNone()
    ensures Firsts([]) == []
  {
  }

  /** The alternatives of the dep of a relation, in order, each once; the ugly candidate is the last choice for a
      recommendation. */
  lemma AlternativesOrdered(cat: Catalog, providers: seq<seq<Cand>>, c: Cand, o: Source)
    requires ValidCatalog(cat) && ValidProviders(cat, providers) && c < |cat.info| && Has(cat, c, o)
    ensures |cat.members| == cat.seats && ValidAlternatives(cat, RuleFor(cat, c, o).alts)
    ensures var conf := if o.field.None? then cat.goalSpec[o.index].conf
                        else o.field.value.Conflicts? || o.field.value.Breaks?;
      var dep := CompileRule(cat, providers, RuleFor(cat, c, o));
      var all := Candidates(cat, providers, conf, o.field.None?, RuleFor(cat, c, o).alts);
      dep.Some? ==> dep.value == Firsts(if o.field == Some(Recommends) then all + [cat.ugly] else all)
  {
    hide Compile, Firsts, Candidates, ValidCatalog;
    var r := RuleFor(cat, c, o);
    RuleValid(cat, c, o);
    CompileOrdered(cat, providers, r, |r.alts|);
    assert r.alts[..|r.alts|] == r.alts;
    AddNewFirsts(Candidates(cat, providers, r.conf, r.goal, r.alts), cat.ugly);
  }
}
