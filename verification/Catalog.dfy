/** The candidates of a workspace with their package relations, what a relation
    means in a selection, and how relations are compiled into deps. */
module Catalogs {
  import opened Basics
  import opened Network
  import opened Versions

  datatype Alternative = Alternative(seat: Seat, op: Op, version: Option<Text>)

  /** A relation as it is compiled: its field, if any, whether it is a conflict,
      whether it is only recommended, and whether it was written by the user. */
  datatype Rule = Rule(field: Option<RelType>, conf: bool, recommended: bool, goal: bool, alts: seq<Alternative>)

  /** A candidate: its seat, its version (null, goal and ugly candidates have
      none), its relations by field, and the seats of the packages it provides. */
  datatype Info = Info(
    seat: Seat, version: Option<Text>,
    preDepends: seq<seq<Alternative>>, depends: seq<seq<Alternative>>, recommends: seq<seq<Alternative>>,
    conflicts: seq<seq<Alternative>>, breaks: seq<seq<Alternative>>,
    provided: seq<Seat>)

  datatype GoalRelation = GoalRelation(conf: bool, alts: seq<Alternative>)

  /** `members` lists the candidates of every seat, in the order they are tried. */
  datatype Catalog = Catalog(
    seats: nat, info: seq<Info>, members: seq<seq<Cand>>, goal: Cand, ugly: Cand, goalSpec: seq<GoalRelation>)

  predicate ValidAlternatives(cat: Catalog, alts: seq<Alternative>) {
    forall i :: 0 <= i < |alts| ==> alts[i].seat < cat.seats
  }

  predicate ValidField(cat: Catalog, rels: seq<seq<Alternative>>) {
    forall i :: 0 <= i < |rels| ==> ValidAlternatives(cat, rels[i])
  }

  ghost predicate ValidCatalog(cat: Catalog) {
    && |cat.members| == cat.seats && cat.goal < |cat.info| && cat.ugly < |cat.info|
    && (forall c :: 0 <= c < |cat.info| ==> ValidInfo(cat, cat.info[c]))
    && (forall s, k :: 0 <= s < cat.seats && 0 <= k < |cat.members[s]| ==> OnSeat(cat, cat.members[s][k], s))
    && (forall c :: 0 <= c < |cat.info| ==> c in cat.members[cat.info[c].seat])
    && forall i :: 0 <= i < |cat.goalSpec| ==> ValidAlternatives(cat, cat.goalSpec[i].alts)
  }

  predicate OnSeat(cat: Catalog, c: Cand, s: Seat) {
    c < |cat.info| && cat.info[c].seat == s
  }

  predicate ValidInfo(cat: Catalog, r: Info) {
    && r.seat < cat.seats && ValidField(cat, r.preDepends) && ValidField(cat, r.depends)
    && ValidField(cat, r.recommends) && ValidField(cat, r.conflicts) && ValidField(cat, r.breaks)
    && forall i :: 0 <= i < |r.provided| ==> r.provided[i] < cat.seats
  }

  /** A configuration selects one candidate for every seat. */
  predicate ValidConfig(cat: Catalog, sel: Selection) {
    |sel| == cat.seats == |cat.members| && forall s :: 0 <= s < |sel| ==> sel[s] in cat.members[s]
  }

  predicate Chosen(cat: Catalog, sel: Selection, c: Cand)
    requires c < |cat.info|
  {
    var s := cat.info[c].seat;
    s < |sel| && sel[s] == c
  }

  /* What relations mean. */

  const NO_TEXT: Text := Text("\0", 0)

  /** The version of the candidate is in the relation. A goal alternative "equal to
      no version" asks for a candidate without version. */
  predicate Matches(cat: Catalog, c: Cand, goal: bool, alt: Alternative)
    requires c < |cat.info|
  {
    var v := cat.info[c].version;
    if goal && alt.op == Eq && alt.version.None? then v.None?
    else v.Some? && Holds(alt.op, Chars(v.value), Chars(if alt.version.Some? then alt.version.value else NO_TEXT))
  }

  predicate Satisfies(cat: Catalog, c: Cand, r: Rule, alt: Alternative)
    requires c < |cat.info|
  {
    Matches(cat, c, r.goal, alt) != r.conf
  }

  predicate Supplies(cat: Catalog, c: Cand, r: Rule)
    requires c < |cat.info|
  {
    cat.info[c].version.Some? != r.conf
  }

  predicate IsProvider(cat: Catalog, c: Cand, s: Seat) {
    c < |cat.info| && cat.info[c].version.Some? && s in cat.info[c].provided
  }

  /** The alternative holds: the selected candidate of its seat satisfies it, or it
      is no conflict and a selected candidate provides the package. */
  ghost predicate AlternativeHolds(cat: Catalog, sel: Selection, r: Rule, alt: Alternative)
    requires ValidCatalog(cat) && ValidConfig(cat, sel) && alt.seat < cat.seats
  {
    Satisfies(cat, sel[alt.seat], r, alt) ||
    (!r.conf && exists c :: IsProvider(cat, c, alt.seat) && Chosen(cat, sel, c))
  }

  ghost predicate RuleHolds(cat: Catalog, sel: Selection, r: Rule)
    requires ValidCatalog(cat) && ValidConfig(cat, sel) && ValidAlternatives(cat, r.alts)
  {
    (exists i :: 0 <= i < |r.alts| && AlternativeHolds(cat, sel, r, r.alts[i])) ||
    (r.recommended && Chosen(cat, sel, cat.ugly))
  }

  /* How relations are compiled. */

  function AddNew(acc: seq<Cand>, c: Cand): seq<Cand> {
    if c in acc then acc else acc + [c]
  }

  /** All candidates of `cs` for which `f` holds, without those already there. */
  function AddMatching(acc: seq<Cand>, cs: seq<Cand>, f: Cand -> bool): seq<Cand> {
    if cs == [] then acc
    else
      var rest := AddMatching(acc, cs[..|cs| - 1], f);
      var c := cs[|cs| - 1];
      if f(c) then AddNew(rest, c) else rest
  }

  function Satisfying(cat: Catalog, r: Rule, alt: Alternative): Cand -> bool {
    (c: Cand) => c < |cat.info| && Satisfies(cat, c, r, alt)
  }

  function Providing(cat: Catalog, r: Rule): Cand -> bool {
    (c: Cand) => c < |cat.info| && Supplies(cat, c, r)
  }

  /** Whatever is selected for the seat satisfies the alternative. */
  predicate AllSatisfy(cat: Catalog, r: Rule, alt: Alternative)
    requires ValidCatalog(cat) && alt.seat < cat.seats
  {
    forall c :: c in cat.members[alt.seat] ==> Satisfies(cat, c, r, alt)
  }

  /** The alternatives of a dep, after the first `n` alternatives of the rule;
      nothing once an alternative holds whatever is selected. */
  function Compile(cat: Catalog, providers: seq<seq<Cand>>, r: Rule, n: nat): Option<seq<Cand>>
    requires ValidCatalog(cat) && ValidAlternatives(cat, r.alts) && |providers| == cat.seats && n <= |r.alts|
  {
    if n == 0 then Some([])
    else
      var acc := Compile(cat, providers, r, n - 1);
      var alt := r.alts[n - 1];
      if acc.None? || AllSatisfy(cat, r, alt) then None
      else Some(AddMatching(AddMatching(acc.value, cat.members[alt.seat], Satisfying(cat, r, alt)),
                            providers[alt.seat], Providing(cat, r)))
  }

  function CompileRule(cat: Catalog, providers: seq<seq<Cand>>, r: Rule): Option<seq<Cand>>
    requires ValidCatalog(cat) && ValidAlternatives(cat, r.alts) && |providers| == cat.seats
  {
    var alts := Compile(cat, providers, r, |r.alts|);
    if alts.Some? && r.recommended then Some(AddNew(alts.value, cat.ugly)) else alts
  }

  ghost predicate ValidProviders(cat: Catalog, providers: seq<seq<Cand>>) {
    |providers| == cat.seats && forall s, c :: 0 <= s < cat.seats ==> (c in providers[s] <==> IsProvider(cat, c, s))
  }

  lemma {:induction false} AddMatchingMembers(acc: seq<Cand>, cs: seq<Cand>, f: Cand -> bool)
    ensures forall c :: c in AddMatching(acc, cs, f) <==> c in acc || (c in cs && f(c))
    ensures Distinct(acc) ==> Distinct(AddMatching(acc, cs, f))
  {
    if cs != [] {
      AddMatchingMembers(acc, cs[..|cs| - 1], f);
      assert cs == cs[..|cs| - 1] + [cs[|cs| - 1]];
    }
  }

  /** A recorded dep lists exactly the candidates that can make the rule hold. */
  lemma {:induction false} CompileMembers(cat: Catalog, providers: seq<seq<Cand>>, r: Rule, n: nat)
    requires ValidCatalog(cat) && ValidAlternatives(cat, r.alts) && ValidProviders(cat, providers) && n <= |r.alts|
    ensures Compile(cat, providers, r, n).Some? ==> Distinct(Compile(cat, providers, r, n).value)
    ensures Compile(cat, providers, r, n).Some? ==> forall c ::
      c in Compile(cat, providers, r, n).value <==> exists i :: 0 <= i < n && CanHold(cat, r, r.alts[i], c)
    ensures Compile(cat, providers, r, n).None? ==> exists i :: 0 <= i < n && AllSatisfy(cat, r, r.alts[i])
  {
    hide CanHold, ValidCatalog, AddMatching, IsProvider, Satisfies;
    if n > 0 {
      CompileMembers(cat, providers, r, n - 1);
      var acc := Compile(cat, providers, r, n - 1);
      if acc.Some? {
        AddedMembers(cat, providers, r, r.alts[n - 1], acc.value);
      }
    }
  }

  /** One alternative adds the candidates that can make it hold. */
  lemma AddedMembers(cat: Catalog, providers: seq<seq<Cand>>, r: Rule, alt: Alternative, acc: seq<Cand>)
    requires ValidCatalog(cat) && ValidProviders(cat, providers) && alt.seat < cat.seats && Distinct(acc)
    ensures var first := AddMatching(acc, cat.members[alt.seat], Satisfying(cat, r, alt));
            var all := AddMatching(first, providers[alt.seat], Providing(cat, r));
            Distinct(all) && forall c :: c in all <==> c in acc || CanHold(cat, r, alt, c)
  {
    var first := AddMatching(acc, cat.members[alt.seat], Satisfying(cat, r, alt));
    AddMatchingMembers(acc, cat.members[alt.seat], Satisfying(cat, r, alt));
    AddMatchingMembers(first, providers[alt.seat], Providing(cat, r));
  }

  /** Selecting the candidate makes the alternative hold. */
  predicate CanHold(cat: Catalog, r: Rule, alt: Alternative, c: Cand) {
    c < |cat.info| &&
    ((cat.info[c].seat == alt.seat && Satisfies(cat, c, r, alt)) || (!r.conf && IsProvider(cat, c, alt.seat)))
  }

  /** The dep of a rule has a selected alternative exactly when the rule holds, and
      a rule for which no dep is recorded holds in every configuration. */
  lemma CompileMeaning(cat: Catalog, providers: seq<seq<Cand>>, r: Rule, sel: Selection)
    requires ValidCatalog(cat) && ValidAlternatives(cat, r.alts)
    requires ValidProviders(cat, providers) && ValidConfig(cat, sel)
    ensures match CompileRule(cat, providers, r)
      case None => RuleHolds(cat, sel, r)
      case Some(alts) =>
        && Distinct(alts) && (forall a :: a in alts ==> a < |cat.info|)
        && (RuleHolds(cat, sel, r) <==> exists a :: a in alts && Chosen(cat, sel, a))
  {
    hide Compile, Satisfies, ValidInfo;
    CompileMembers(cat, providers, r, |r.alts|);
    match Compile(cat, providers, r, |r.alts|)
    case None =>
      var i :| 0 <= i < |r.alts| && AllSatisfy(cat, r, r.alts[i]);
      assert AlternativeHolds(cat, sel, r, r.alts[i]);
    case Some(alts) =>
      forall a | a in alts && Chosen(cat, sel, a) ensures RuleHolds(cat, sel, r) {
        var i :| 0 <= i < |r.alts| && CanHold(cat, r, r.alts[i], a);
        assert AlternativeHolds(cat, sel, r, r.alts[i]);
      }
      if i :| 0 <= i < |r.alts| && AlternativeHolds(cat, sel, r, r.alts[i]) {
        var s := r.alts[i].seat;
        if Satisfies(cat, sel[s], r, r.alts[i]) {
          assert OnSeat(cat, sel[s], s);
          assert CanHold(cat, r, r.alts[i], sel[s]);
          assert Chosen(cat, sel, sel[s]);
        } else {
          var c :| IsProvider(cat, c, s) && Chosen(cat, sel, c);
          assert CanHold(cat, r, r.alts[i], c);
        }
      }
  }

  /* All rules of a candidate. */

  function FieldRules(field: RelType, conf: bool, recommended: bool, rels: seq<seq<Alternative>>): seq<Rule> {
    seq(|rels|, i requires 0 <= i < |rels| => Rule(Some(field), conf, recommended, false, rels[i]))
  }

  function InfoRules(r: Info): seq<Rule> {
    FieldRules(PreDepends, false, false, r.preDepends) + FieldRules(Depends, false, false, r.depends)
    + FieldRules(Recommends, false, true, r.recommends)
    + FieldRules(Conflicts, true, false, r.conflicts) + FieldRules(Breaks, true, false, r.breaks)
  }

  function GoalRules(spec: seq<GoalRelation>): seq<Rule> {
    seq(|spec|, i requires 0 <= i < |spec| => Rule(None, spec[i].conf, false, true, spec[i].alts))
  }

  /** The rules of a candidate, in the order they are compiled. */
  function RulesOf(cat: Catalog, c: Cand): seq<Rule>
    requires c < |cat.info|
  {
    (if cat.info[c].version.Some? then InfoRules(cat.info[c]) else [])
    + (if c == cat.goal then GoalRules(cat.goalSpec) else [])
  }

  ghost predicate ValidRules(cat: Catalog, rules: seq<Rule>) {
    forall i :: 0 <= i < |rules| ==> ValidAlternatives(cat, rules[i].alts)
  }

  lemma RulesOfValid(cat: Catalog, c: Cand)
    requires ValidCatalog(cat) && c < |cat.info|
    ensures ValidRules(cat, RulesOf(cat, c)) && ValidRules(cat, InfoRules(cat.info[c]))
    ensures ValidRules(cat, GoalRules(cat.goalSpec))
  {
    assert ValidInfo(cat, cat.info[c]);
  }

  /** The deps recorded for some rules: the latest one comes first. */
  function CompileAll(cat: Catalog, providers: seq<seq<Cand>>, rules: seq<Rule>): seq<Dep>
    requires ValidCatalog(cat) && ValidRules(cat, rules) && |providers| == cat.seats
  {
    if rules == [] then []
    else
      var before := CompileAll(cat, providers, rules[..|rules| - 1]);
      var r := rules[|rules| - 1];
      match CompileRule(cat, providers, r)
      case None => before
      case Some(alts) => [Dep(alts, r.field, false, false)] + before
  }

  ghost predicate HoldsIn(cat: Catalog, sel: Selection, d: Dep) {
    exists a :: a in d.alts && a < |cat.info| && Chosen(cat, sel, a)
  }

  /** The recorded deps hold in a configuration exactly when all rules do. */
  lemma {:induction false} CompileAllMeaning(cat: Catalog, providers: seq<seq<Cand>>, rules: seq<Rule>, sel: Selection)
    requires ValidCatalog(cat) && ValidRules(cat, rules) && ValidProviders(cat, providers) && ValidConfig(cat, sel)
    ensures (forall d :: d in CompileAll(cat, providers, rules) ==> HoldsIn(cat, sel, d)) <==>
            (forall i :: 0 <= i < |rules| ==> RuleHolds(cat, sel, rules[i]))
  {
    if rules != [] {
      var n := |rules| - 1;
      var before := rules[..n];
      CompileAllMeaning(cat, providers, before, sel);
      CompileMeaning(cat, providers, rules[n], sel);
      assert forall i :: 0 <= i < n ==> before[i] == rules[i];
      match CompileRule(cat, providers, rules[n])
      case None =>
      case Some(alts) =>
        var d := Dep(alts, rules[n].field, false, false);
        assert HoldsIn(cat, sel, d) <==> RuleHolds(cat, sel, rules[n]);
        assert CompileAll(cat, providers, rules) == [d] + CompileAll(cat, providers, before);
    }
  }

  lemma {:induction false} CompileAllValid(cat: Catalog, providers: seq<seq<Cand>>, rules: seq<Rule>)
    requires ValidCatalog(cat) && ValidRules(cat, rules) && ValidProviders(cat, providers)
    ensures forall d :: d in CompileAll(cat, providers, rules) ==>
      !d.reversed && Distinct(d.alts) && forall a :: a in d.alts ==> a < |cat.info|
  {
    if rules != [] {
      CompileAllValid(cat, providers, rules[..|rules| - 1]);
      CompileMembers(cat, providers, rules[|rules| - 1], |rules[|rules| - 1].alts|);
    }
  }
}
