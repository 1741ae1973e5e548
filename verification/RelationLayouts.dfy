/** Texts of relations in any layout, and in bad shape: what they parse to. */
module RelationLayouts {
  import opened Basics
  import Versions
  import opened RelationText

  /* Characters. */

  /** What is skipped between tokens; a null character is, too. */
  predicate Gap(s: string) {
    forall i :: 0 <= i < |s| ==> s[i] == ' ' || s[i] == '\t' || s[i] == '\n' || s[i] == '\0'
  }

  predicate GapFirst(s: string) {
    s != "" && (s[0] == ' ' || s[0] == '\t' || s[0] == '\n' || s[0] == '\0')
  }

  predicate Starts(s: string, c: char) {
    s != "" && s[0] == c
  }

  predicate NameOk(s: string) {
    s != "" && forall i :: 0 <= i < |s| ==>
      s[i] != ' ' && s[i] != '\t' && s[i] != '\n' && s[i] != '\0' && s[i] != ',' && s[i] != '(' && s[i] != '|'
  }

  predicate VersionChars(s: string) {
    forall i :: 0 <= i < |s| ==>
      s[i] != ' ' && s[i] != '\t' && s[i] != '\n' && s[i] != '\0' && s[i] != ')' && s[i] != ',' && s[i] != '|'
  }

  predicate OpChars(s: string) {
    forall i :: 0 <= i < |s| ==> s[i] == '<' || s[i] == '>' || s[i] == '='
  }

  /** A single angle bracket is short for the inclusive operator. */
  predicate Spells(s: string, op: Versions.Op) {
    match op
    case Any => false
    case Eq => s == "="
    case Less => s == "<<"
    case LessEq => s == "<=" || s == "<"
    case Greater => s == ">>"
    case GreaterEq => s == ">=" || s == ">"
  }

  /* Layouts. */

  /** An alternative with the gaps around its tokens and the spelling of its operator. */
  datatype Item = Item(alt: Alternative, before: string, afterName: string, beforeOp: string, op: string,
                       afterOp: string, afterVersion: string, after: string)

  predicate ItemOk(t: Item) {
    && NameOk(t.alt.name)
    && Gap(t.before) && Gap(t.afterName) && Gap(t.beforeOp) && Gap(t.afterOp) && Gap(t.afterVersion) && Gap(t.after)
    && match t.alt.version
       case None => t.alt.op == Versions.Any
       case Some(v) => v != "" && VersionChars(v) && Spells(t.op, t.alt.op) && OpEnds(t.afterOp + v)
  }

  /** What follows an operator does not look like more of it. */
  predicate OpEnds(s: string) {
    s == "" || (s[0] != '<' && s[0] != '>' && s[0] != '=' && s[0] != '\0')
  }

  function ConditionBody(t: Item): string {
    if t.alt.version.None? then ""
    else t.beforeOp + (t.op + (t.afterOp + (t.alt.version.value + (t.afterVersion + ")"))))
  }

  function Body(t: Item): string {
    t.alt.name + if t.alt.version.None? then "" else t.afterName + ("(" + ConditionBody(t))
  }

  /** What comes after an alternative: the end, a bar or a comma; or something else that is no parenthesis, if
      it cannot be part of the name. */
  predicate Stops(t: Item, rest: string) {
    || rest == "" || rest[0] == '|' || rest[0] == ','
    || (!GapFirst(rest) && rest[0] != '(' && (t.alt.version.Some? || t.after != ""))
  }

  /* Tokens. */

  lemma Blanks(s: string, rest: string)
    requires Gap(s) && !GapFirst(rest)
    ensures Skip(s + rest, BLANKS) == rest
  {
    SkipTo(s, rest, BLANKS);
  }

  lemma Name(name: string, rest: string)
    requires NameOk(name)
    requires rest == "" || GapFirst(rest) || Starts(rest, ',') || Starts(rest, '(') || Starts(rest, '|')
    ensures Find(name + rest, NAME_ENDS) == rest && Passed(name + rest, rest) == name
  {
    FindTo(name, rest, NAME_ENDS);
  }

  lemma Operator(op: string, rest: string)
    requires OpChars(op) && OpEnds(rest)
    ensures Skip(op + rest, "<>=") == rest && Passed(op + rest, rest) == op
  {
    SkipTo(op, rest, "<>=");
  }

  lemma Version(v: string, rest: string)
    requires VersionChars(v)
    requires rest == "" || GapFirst(rest) || Starts(rest, ')') || Starts(rest, ',') || Starts(rest, '|')
    ensures Find(v + rest, VERSION_ENDS) == rest && Passed(v + rest, rest) == v
  {
    FindTo(v, rest, VERSION_ENDS);
  }

  /** The text in the parentheses, up to the version. */
  lemma ConditionStarts(beforeOp: string, op: string, afterOp: string, rest: string)
    requires Gap(beforeOp) && OpChars(op) && Gap(afterOp) && OpEnds(afterOp + rest) && !GapFirst(rest)
    ensures var s := beforeOp + (op + (afterOp + rest));
      && Skip(s, BLANKS) == op + (afterOp + rest)
      && Skip(op + (afterOp + rest), "<>=") == afterOp + rest && Passed(op + (afterOp + rest), afterOp + rest) == op
      && Skip(afterOp + rest, BLANKS) == rest
    requires op != "" || afterOp == ""
  {
    Operator(op, afterOp + rest);
    Blanks(afterOp, rest);
    if op == "" {
      assert op + (afterOp + rest) == rest;
    }
    Blanks(beforeOp, op + (afterOp + rest));
  }

  lemma SpelledOp(s: string, op: Versions.Op)
    ensures Spells(s, op) ==> OpCode(s) == Some(op) && OpChars(s) && s != ""
    ensures OpCode(s) == Some(op) ==> Spells(s, op)
  {
  }

  lemma ConditionParses(t: Item, rest: string)
    requires ItemOk(t) && t.alt.version.Some?
    ensures ParseCondition(ConditionBody(t) + rest, t.alt.name)
            == Found(rest, t.alt.name, Some(Condition(t.op, t.alt.version.value)))
  {
    hide Skip, Find, Passed, VersionChars, Gap, OpChars, Spells, NameOk;
    var v := t.alt.version.value;
    var close := ")" + rest;
    var afterVersion := t.afterVersion + close;
    var version := v + afterVersion;
    assert ConditionBody(t) + rest == t.beforeOp + (t.op + (t.afterOp + version));
    SpelledOp(t.op, t.alt.op);
    VersionFirst(v, afterVersion);
    OpEndsMore(t.afterOp, v, afterVersion);
    ConditionStarts(t.beforeOp, t.op, t.afterOp, version);
    GapThen(t.afterVersion, close);
    Version(v, afterVersion);
    Blanks(t.afterVersion, close);
    assert close[1..] == rest;
  }

  lemma VersionFirst(v: string, rest: string)
    requires v != "" && VersionChars(v)
    ensures var s := v + rest;
      !GapFirst(s) && !LookingAt(s, ')') && !LookingAt(s, ',') && !LookingAt(s, '|')
  {
    assert (v + rest)[0] == v[0];
  }

  lemma OpEndsMore(gap: string, v: string, rest: string)
    requires OpEnds(gap + v) && v != ""
    ensures OpEnds(gap + (v + rest))
  {
    assert (gap + (v + rest))[0] == (gap + v)[0];
  }

  lemma GapThen(gap: string, rest: string)
    requires Gap(gap)
    ensures gap != "" ==> GapFirst(gap + rest)
    ensures gap == "" ==> gap + rest == rest
  {
  }

  /** An alternative is found, whatever its layout. */
  lemma BodyParses(t: Item, rest: string)
    requires ItemOk(t) && Stops(t, rest)
    ensures var step := ParseAlternative(Body(t) + (t.after + rest));
      && step.Found? && MakeAlternative(step.name, step.condition) == Ok(t.alt)
      && Skip(step.rest, BLANKS) == rest
  {
    hide Skip, Find, Passed, ParseCondition, OpCode, Gap, NameOk, VersionChars, Spells, ConditionBody;
    var post := t.after + rest;
    GapThen(t.after, rest);
    Blanks(t.after, rest);
    assert t.alt.name != "" by { NameFirst(t.alt.name, ""); }
    if t.alt.version.None? {
      assert Body(t) + post == t.alt.name + post;
      Name(t.alt.name, post);
      SkipNothing(rest, BLANKS);
    } else {
      var inner := ConditionBody(t) + post;
      var open := "(" + inner;
      assert Body(t) + post == t.alt.name + (t.afterName + open);
      GapThen(t.afterName, open);
      Name(t.alt.name, t.afterName + open);
      Blanks(t.afterName, open);
      assert open[1..] == inner;
      ConditionParses(t, post);
      SpelledOp(t.op, t.alt.op);
    }
  }

  lemma NameFirst(name: string, rest: string)
    requires NameOk(name)
    ensures name != "" && !GapFirst(name + rest)
  {
    assert (name + rest)[0] == name[0];
  }

  function TextOf(t: Item): string {
    t.before + (Body(t) + t.after)
  }

  lemma BodyFirst(t: Item, rest: string)
    requires ItemOk(t)
    ensures !GapFirst(Body(t) + rest)
  {
    NameFirst(t.alt.name, "");
    assert (Body(t) + rest)[0] == t.alt.name[0];
  }

  /** A step at an alternative, where one may begin. */
  lemma ItemStep(t: Item, rest: string)
    requires ItemOk(t) && Stops(t, rest)
    ensures var step := NextAlternative(TextOf(t) + rest, true);
      && step.Found? && MakeAlternative(step.name, step.condition) == Ok(t.alt)
      && Skip(step.rest, BLANKS) == rest
  {
    hide Skip, ParseAlternative, Body, Stops, MakeAlternative, Gap, NameOk, VersionChars, Spells;
    var body := Body(t) + (t.after + rest);
    assert TextOf(t) + rest == t.before + body;
    BodyFirst(t, t.after + rest);
    Blanks(t.before, body);
    BodyParses(t, rest);
  }

  /* Alternatives. */

  function Alts(items: seq<Item>): seq<Alternative> {
    seq(|items|, i requires 0 <= i < |items| => items[i].alt)
  }

  predicate ItemsOk(items: seq<Item>) {
    forall i :: 0 <= i < |items| ==> ItemOk(items[i])
  }

  /** Alternatives, each with a bar behind it. */
  function LeadItems(items: seq<Item>): string {
    if items == [] then "" else TextOf(items[0]) + ("|" + LeadItems(items[1..]))
  }

  /** Alternatives that are put in front of others, `n` of them being there already; at most 64 are taken. */
  function WithItems(items: seq<Item>, n: nat, r: Result<(seq<Alternative>, string)>)
    : Result<(seq<Alternative>, string)>
  {
    if items == [] then r
    else if n >= 64 then Fail(TooManyAlternatives)
    else JoinAlternatives([items[0].alt], WithItems(items[1..], n + 1, r))
  }

  /** After a bar an alternative begins as at the start. */
  lemma AfterBar(s: string, n: nat)
    ensures ParseAlternatives("|" + s, false, n) == ParseAlternatives(s, true, n)
  {
    hide ParseAlternative;
    SkipNothing("|" + s, BLANKS);
    assert ("|" + s)[1..] == s;
    assert NextAlternative("|" + s, false) == NextAlternative(s, true);
  }

  /** One alternative and what follows. */
  lemma ItemParses(t: Item, rest: string, n: nat)
    requires ItemOk(t) && Stops(t, rest)
    ensures ParseAlternatives(TextOf(t) + rest, true, n)
            == if n >= 64 then Fail(TooManyAlternatives)
               else JoinAlternatives([t.alt], ParseAlternatives(rest, false, n + 1))
  {
    hide NextAlternative, MakeAlternative, Skip, TextOf, Stops;
    ItemStep(t, rest);
    var step := NextAlternative(TextOf(t) + rest, true);
    StopsSkipped(t, rest);
    AlternativesBlank(step.rest, rest, false, n + 1);
  }

  lemma StopsSkipped(t: Item, rest: string)
    requires Stops(t, rest)
    ensures Skip(rest, BLANKS) == rest
  {
    SkipNothing(rest, BLANKS);
  }

  /** Alternatives with bars between them, and whatever comes after the last bar. */
  lemma {:induction false} ItemsParse(items: seq<Item>, s: string, n: nat)
    requires ItemsOk(items)
    ensures ParseAlternatives(LeadItems(items) + s, true, n)
            == WithItems(items, n, ParseAlternatives(s, true, n + |items|))
    decreases |items|
  {
    hide ParseAlternatives, TextOf, ItemOk;
    if items == [] {
      assert LeadItems(items) + s == s;
    } else {
      var rest := LeadItems(items[1..]) + s;
      assert LeadItems(items) + s == TextOf(items[0]) + ("|" + rest);
      ItemParses(items[0], "|" + rest, n);
      AfterBar(rest, n + 1);
      if n < 64 {
        ItemsParse(items[1..], s, n + 1);
      }
    }
  }

  /** The last alternative, where a relation ends. */
  lemma LastItem(t: Item, rest: string, n: nat)
    requires ItemOk(t) && Stops(t, rest) && !Starts(rest, '|')
    ensures ParseAlternatives(TextOf(t) + rest, true, n)
            == if n >= 64 then Fail(TooManyAlternatives) else Ok(([t.alt], rest))
  {
    hide ParseAlternatives, TextOf, ItemOk;
    ItemParses(t, rest, n);
    NoBar(t, rest, n + 1);
    assert [t.alt] + [] == [t.alt];
  }

  lemma NoBar(t: Item, rest: string, n: nat)
    requires Stops(t, rest) && !Starts(rest, '|')
    ensures ParseAlternatives(rest, false, n) == Ok(([], rest))
  {
    StopsSkipped(t, rest);
  }

  /** Where no name comes, there is no alternative. */
  lemma NoItem(gap: string, rest: string, n: nat)
    requires Gap(gap) && (rest == "" || rest[0] == ',' || rest[0] == '|' || rest[0] == '(')
    ensures ParseAlternatives(gap + rest, true, n) == Ok(([], rest))
  {
    Blanks(gap, rest);
    FindTo("", rest, NAME_ENDS);
    assert "" + rest == rest;
  }

  /* Alternatives in bad shape. */

  lemma NameThen(before: string, name: string, afterName: string, s: string, n: nat)
    requires Gap(before) && NameOk(name) && Gap(afterName)
    ensures NextAlternative(before + (name + (afterName + ("(" + s))), true) == ParseCondition(s, name)
  {
    hide Skip, Find, Passed, ParseCondition, NameOk, Gap;
    var open := "(" + s;
    NameFirst(name, afterName + open);
    Blanks(before, name + (afterName + open));
    GapThen(afterName, open);
    Name(name, afterName + open);
    Blanks(afterName, open);
    assert open[1..] == s;
  }

  /** A version is missing before a closing parenthesis, a comma or a bar. */
  lemma VersionMissing(before: string, name: string, afterName: string, beforeOp: string, op: string, afterOp: string,
                       rest: string, n: nat)
    requires Gap(before) && NameOk(name) && Gap(afterName) && Gap(beforeOp) && OpChars(op) && Gap(afterOp)
    requires OpEnds(afterOp + rest) && (op != "" || afterOp == "")
    requires Starts(rest, ')') || Starts(rest, ',') || Starts(rest, '|')
    ensures ParseAlternatives(before + (name + (afterName + ("(" + (beforeOp + (op + (afterOp + rest)))))), true, n)
            == Fail(MissingVersion)
  {
    hide Skip, Find, Passed, NextAlternative;
    NameThen(before, name, afterName, beforeOp + (op + (afterOp + rest)), n);
    ConditionStarts(beforeOp, op, afterOp, rest);
  }

  /** After the version comes something else than a closing parenthesis. */
  lemma ParenthesisMissing(before: string, name: string, afterName: string, beforeOp: string, op: string,
                           afterOp: string, v: string, afterVersion: string, rest: string, n: nat)
    requires Gap(before) && NameOk(name) && Gap(afterName) && Gap(beforeOp) && OpChars(op) && Gap(afterOp)
    requires v != "" && VersionChars(v) && OpEnds(afterOp + v) && (op != "" || afterOp == "") && Gap(afterVersion)
    requires !GapFirst(rest) && !Starts(rest, ')')
    requires afterVersion != "" || rest == "" || rest[0] == ',' || rest[0] == '|'
    ensures ParseAlternatives(
              before + (name + (afterName + ("(" + (beforeOp + (op + (afterOp + (v + (afterVersion + rest)))))))),
              true, n) == Fail(MissingParenthesis)
  {
    hide Skip, Find, Passed, NextAlternative, VersionChars, Gap, OpChars, NameOk;
    var tail := afterVersion + rest;
    NameThen(before, name, afterName, beforeOp + (op + (afterOp + (v + tail))), n);
    VersionFirst(v, tail);
    OpEndsMore(afterOp, v, tail);
    ConditionStarts(beforeOp, op, afterOp, v + tail);
    GapThen(afterVersion, rest);
    Version(v, tail);
    Blanks(afterVersion, rest);
  }

  /** A condition whose operator is none of the seven spellings. */
  lemma OperatorUnknown(before: string, name: string, afterName: string, beforeOp: string, op: string,
                        afterOp: string, v: string, afterVersion: string, rest: string, n: nat)
    requires Gap(before) && NameOk(name) && Gap(afterName) && Gap(beforeOp) && OpChars(op) && Gap(afterOp)
    requires v != "" && VersionChars(v) && OpEnds(afterOp + v) && (op != "" || afterOp == "") && Gap(afterVersion)
    requires forall code :: !Spells(op, code)
    ensures ParseAlternatives(
              before + (name + (afterName + ("(" +
                (beforeOp + (op + (afterOp + (v + (afterVersion + (")" + rest))))))))), true, n)
            == Fail(UnknownOperator(op))
  {
    hide Skip, Find, Passed, NextAlternative, VersionChars, Gap, OpChars, NameOk, Spells, OpCode;
    var close := ")" + rest;
    var tail := afterVersion + close;
    NameThen(before, name, afterName, beforeOp + (op + (afterOp + (v + tail))), n);
    VersionFirst(v, tail);
    OpEndsMore(afterOp, v, tail);
    ConditionStarts(beforeOp, op, afterOp, v + tail);
    GapThen(afterVersion, close);
    Version(v, tail);
    Blanks(afterVersion, close);
    if OpCode(op).Some? {
      SpelledOp(op, OpCode(op).value);
    }
  }

  /* Relations. */

  /** The alternatives of a relation; without any there is only a gap. */
  datatype Line = Line(items: seq<Item>, gap: string)

  predicate LineOk(l: Line) {
    ItemsOk(l.items) && Gap(l.gap)
  }

  function LineText(l: Line): string {
    if l.items == [] then l.gap
    else LeadItems(l.items[..|l.items| - 1]) + TextOf(l.items[|l.items| - 1])
  }

  /** What a line gives: too many alternatives, or its alternatives. */
  function LineValue(l: Line): Result<seq<Alternative>> {
    if |l.items| > 64 then Fail(TooManyAlternatives) else Ok(Alts(l.items))
  }

  /** Where a relation ends. */
  predicate LineStops(l: Line, rest: string) {
    || rest == "" || rest[0] == ','
    || (l.items != [] && rest[0] != '|' && Stops(l.items[|l.items| - 1], rest))
  }

  lemma {:induction false} WithItemsIs(items: seq<Item>, n: nat, r: Result<(seq<Alternative>, string)>)
    ensures n + |items| > 64 && items != [] ==> WithItems(items, n, r) == Fail(TooManyAlternatives)
    ensures n + |items| <= 64 ==> WithItems(items, n, r) == JoinAlternatives(Alts(items), r)
    decreases |items|
  {
    if items != [] {
      WithItemsIs(items[1..], n + 1, r);
      if r.Ok? {
        assert [items[0].alt] + (Alts(items[1..]) + r.value.0) == Alts(items) + r.value.0;
      }
    } else if r.Ok? {
      assert Alts(items) + r.value.0 == r.value.0;
    }
  }

  lemma LineParses(l: Line, rest: string)
    requires LineOk(l) && LineStops(l, rest)
    ensures ParseAlternatives(LineText(l) + rest, true, 0)
            == if LineValue(l).Fail? then Fail(LineValue(l).error) else Ok((LineValue(l).value, rest))
  {
    hide ParseAlternatives, TextOf, LeadItems, WithItems, Gap;
    if l.items == [] {
      assert Alts(l.items) == [];
      NoItem(l.gap, rest, 0);
    } else {
      var n := |l.items| - 1;
      var lead, last := l.items[..n], l.items[n];
      assert LineText(l) + rest == LeadItems(lead) + (TextOf(last) + rest);
      ItemsParse(lead, TextOf(last) + rest, 0);
      LastItem(last, rest, n);
      WithItemsIs(lead, 0, ParseAlternatives(TextOf(last) + rest, true, n));
      assert Alts(lead) + [last.alt] == Alts(l.items);
      assert lead == [] ==> Alts(l.items) == [last.alt];
    }
  }

  /** Relations, each with a comma behind it. */
  function LeadLines(lines: seq<Line>): string {
    if lines == [] then "" else LineText(lines[0]) + ("," + LeadLines(lines[1..]))
  }

  predicate LinesOk(lines: seq<Line>) {
    forall i :: 0 <= i < |lines| ==> LineOk(lines[i])
  }

  /** Relations that are put in front of others, `n` of them being there already; those without alternatives
      do not count, and at most 2048 are taken. */
  function WithLines(lines: seq<Line>, n: nat, rest: nat -> Result<seq<seq<Alternative>>>)
    : Result<seq<seq<Alternative>>>
  {
    if lines == [] then rest(n)
    else
      match LineValue(lines[0])
      case Fail(error) => Fail(error)
      case Ok(alts) =>
        if alts == [] then WithLines(lines[1..], n, rest)
        else if n >= 2048 then Fail(TooManyRelations)
        else JoinRelations([alts], WithLines(lines[1..], n + 1, rest))
  }

  /** One relation and what follows. */
  lemma RelationParses(l: Line, rest: string, n: nat)
    requires LineOk(l) && LineStops(l, rest)
    ensures ParseRelations(LineText(l) + rest, n) ==
      var value := LineValue(l);
      if value.Fail? then Fail(value.error)
      else if value.value != [] && n >= 2048 then Fail(TooManyRelations)
      else
        var own := if value.value == [] then [] else [value.value];
        if Starts(rest, ',') then JoinRelations(own, ParseRelations(rest[1..], n + |own|)) else Ok(own)
  {
    hide ParseAlternatives, LineText, LineValue;
    LineParses(l, rest);
    NoBlank(l, rest);
    var r := ParseAlternatives(LineText(l) + rest, true, 0);
  }

  lemma NoBlank(l: Line, rest: string)
    requires LineStops(l, rest)
    ensures Skip(rest, " \t") == rest
  {
    SkipNothing(rest, " \t");
  }

  /** Relations with commas between them, and whatever comes after the last comma. */
  lemma {:induction false} LinesParse(lines: seq<Line>, s: string, n: nat)
    requires LinesOk(lines)
    ensures ParseRelations(LeadLines(lines) + s, n) == WithLines(lines, n, (m: nat) => ParseRelations(s, m))
    decreases |lines|
  {
    hide ParseRelations, LineText, LineValue, LineOk;
    if lines == [] {
      assert LeadLines(lines) + s == s;
    } else {
      var rest := LeadLines(lines[1..]) + s;
      assert LeadLines(lines) + s == LineText(lines[0]) + ("," + rest);
      RelationParses(lines[0], "," + rest, n);
      assert ("," + rest)[1..] == rest;
      LinesParse(lines[1..], s, n);
      LinesParse(lines[1..], s, n + 1);
      NoneBefore(ParseRelations(rest, n));
    }
  }

  /** A whole text: the last relation has no comma behind it, and what follows is not read. */
  lemma TextParses(lines: seq<Line>, last: Line, rest: string, n: nat)
    requires LinesOk(lines) && LineOk(last) && LineStops(last, rest) && !Starts(rest, ',')
    ensures ParseRelations(LeadLines(lines) + (LineText(last) + rest), n)
            == WithLines(lines + [last], n, (m: nat) => Ok([]))
    decreases |lines|
  {
    hide ParseRelations, LineText, LineOk, LineValue;
    var s := LineText(last) + rest;
    LinesParse(lines, s, n);
    forall m: nat
      ensures ParseRelations(s, m) == WithLines([last], m, (k: nat) => Ok([]))
    {
      RelationParses(last, rest, m);
      assert [last][1..] == [];
      LastAlone(last, m);
    }
    WithLinesJoin(lines, [last], n, (m: nat) => ParseRelations(s, m), (m: nat) => Ok([]));
  }

  lemma LastAlone(last: Line, m: nat)
    ensures WithLines([last], m, (k: nat) => Ok([])) ==
      var value := LineValue(last);
      if value.Fail? then Fail(value.error)
      else if value.value == [] then Ok([])
      else if m >= 2048 then Fail(TooManyRelations)
      else Ok([value.value])
  {
    assert [last][1..] == [];
    var value := LineValue(last);
    if value.Ok? {
      assert [value.value] + [] == [value.value];
    }
  }

  lemma {:induction false} WithLinesJoin(lines: seq<Line>, more: seq<Line>, n: nat,
                                         f: nat -> Result<seq<seq<Alternative>>>,
                                         g: nat -> Result<seq<seq<Alternative>>>)
    requires forall m: nat :: f(m) == WithLines(more, m, g)
    ensures WithLines(lines, n, f) == WithLines(lines + more, n, g)
    decreases |lines|
  {
    if lines == [] {
      assert lines + more == more;
    } else {
      assert (lines + more)[1..] == lines[1..] + more;
      WithLinesJoin(lines[1..], more, n, f, g);
      WithLinesJoin(lines[1..], more, n + 1, f, g);
    }
  }

  /* The relations of a text. */

  /** The relations that have alternatives. */
  function Values(lines: seq<Line>): seq<seq<Alternative>> {
    if lines == [] then []
    else (if lines[0].items == [] then [] else [Alts(lines[0].items)]) + Values(lines[1..])
  }

  lemma {:induction false} WithLinesValues(lines: seq<Line>, n: nat)
    requires n + |Values(lines)| <= 2048 && forall i :: 0 <= i < |lines| ==> |lines[i].items| <= 64
    ensures WithLines(lines, n, (m: nat) => Ok([])) == Ok(Values(lines))
    decreases |lines|
  {
    if lines != [] {
      assert |Alts(lines[0].items)| == |lines[0].items|;
      if lines[0].items == [] {
        assert Alts(lines[0].items) == [] && LineValue(lines[0]) == Ok([]);
        assert Values(lines) == Values(lines[1..]);
        WithLinesValues(lines[1..], n);
      } else {
        WithLinesValues(lines[1..], n + 1);
      }
    }
  }

  /** Layout does not matter: up to 2048 relations of up to 64 alternatives are read as they would be from their
      printed form. */
  lemma LayoutIrrelevant(lines: seq<Line>, last: Line, rest: string)
    requires LinesOk(lines) && LineOk(last) && LineStops(last, rest) && !Starts(rest, ',')
    requires forall i :: 0 <= i < |lines + [last]| ==> |(lines + [last])[i].items| <= 64
    requires |Values(lines + [last])| <= 2048
    ensures ParseRelations(LeadLines(lines) + (LineText(last) + rest), 0) == Ok(Values(lines + [last]))
    ensures ParseRelations(ShowRelations(Values(lines + [last])), 0) == Ok(Values(lines + [last]))
  {
    hide ParseRelations, ShowRelations;
    TextParses(lines, last, rest, 0);
    WithLinesValues(lines + [last], 0);
    ParsedIsOk(Values(lines + [last]));
  }

  /* What can come out of the parser. */

  predicate WellFormed(relations: seq<seq<Alternative>>) {
    && |relations| <= 2048
    && forall i :: 0 <= i < |relations| ==>
         && 0 < |relations[i]| <= 64
         && forall k :: 0 <= k < |relations[i]| ==> AlternativeShape(relations[i][k])
  }

  predicate AlternativeShape(a: Alternative) {
    && NameOk(a.name)
    && match a.version
       case None => a.op == Versions.Any
       case Some(v) => a.op != Versions.Any && v != "" && VersionChars(v)
  }

  lemma ShapeIs(a: Alternative)
    ensures AlternativeOk(a) <==> AlternativeShape(a)
  {
  }

  lemma ParsedExactly(relations: seq<seq<Alternative>>)
    ensures WellFormed(relations) <==> exists s :: ParseRelations(s, 0) == Ok(relations)
  {
    hide ParseRelations, ShowRelations, AlternativeOk, AlternativeShape;
    ParsedIsOk(relations);
    forall i, k | 0 <= i < |relations| && 0 <= k < |relations[i]|
      ensures AlternativeOk(relations[i][k]) <==> AlternativeShape(relations[i][k])
    {
      ShapeIs(relations[i][k]);
    }
    assert RelationsOk(relations) <==> WellFormed(relations);
  }

  /* The printed form. */

  /** A version is printed in parentheses after its operator, which is written out. */
  lemma ShownAlternative(name: string, v: string)
    ensures ShowAlternative(Alternative(Versions.Any, name, None)) == name
    ensures ShowAlternative(Alternative(Versions.Eq, name, Some(v))) == name + (" (= " + v + ")")
    ensures ShowAlternative(Alternative(Versions.Less, name, Some(v))) == name + (" (<< " + v + ")")
    ensures ShowAlternative(Alternative(Versions.LessEq, name, Some(v))) == name + (" (<= " + v + ")")
    ensures ShowAlternative(Alternative(Versions.Greater, name, Some(v))) == name + (" (>> " + v + ")")
    ensures ShowAlternative(Alternative(Versions.GreaterEq, name, Some(v))) == name + (" (>= " + v + ")")
  {
  }

  lemma {:induction false} ShownMore(alts: seq<Alternative>, a: Alternative)
    ensures ShowMoreAlternatives(alts + [a]) == ShowMoreAlternatives(alts) + (" | " + ShowAlternative(a))
  {
    hide ShowAlternative;
    if alts == [] {
      assert alts + [a] == [a] && [a][1..] == [];
      assert ShowMoreAlternatives([a]) == " | " + ShowAlternative(a) + ShowMoreAlternatives([]);
    } else {
      assert (alts + [a])[1..] == alts[1..] + [a];
      ShownMore(alts[1..], a);
    }
  }

  /** Alternatives are separated by bars. */
  lemma ShownRelation(alts: seq<Alternative>, a: Alternative)
    ensures ShowRelation([]) == ""
    ensures ShowRelation(alts + [a]) == ShowRelation(alts) + ((if alts == [] then "" else " | ") + ShowAlternative(a))
  {
    hide ShowAlternative, ShowMoreAlternatives;
    if alts == [] {
      assert alts + [a] == [a] && [a][1..] == [];
      ShownNoMore();
    } else {
      assert (alts + [a])[1..] == alts[1..] + [a];
      ShownMore(alts[1..], a);
    }
  }

  lemma ShownNoMore()
    ensures ShowMoreAlternatives([]) == ""
  {
  }

  /** Relations are separated by commas. */
  lemma {:induction false} ShownRelations(relations: seq<seq<Alternative>>, r: seq<Alternative>)
    ensures ShowRelations([]) == ""
    ensures ShowRelations(relations + [r])
            == ShowRelations(relations) + ((if relations == [] then "" else ", ") + ShowRelation(r))
    decreases |relations|
  {
    hide ShowRelation;
    if relations == [] {
      assert relations + [r] == [r];
    } else {
      assert (relations + [r])[1..] == relations[1..] + [r];
      ShownRelations(relations[1..], r);
      if |relations| == 1 {
        assert relations[1..] == [] && relations[1..] + [r] == [r];
      }
    }
  }
}
