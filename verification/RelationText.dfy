/** The text form of package relations: parsing and printing. */
module RelationText {
  import opened Basics
  import Versions

  /** One alternative of a relation: a package, and maybe a condition on its version. */
  datatype Alternative = Alternative(op: Versions.Op, name: string, version: Option<string>)

  datatype Error =
    | MissingVersion
    | MissingParenthesis
    | UnknownOperator(op: string)
    | TooManyAlternatives
    | TooManyRelations

  datatype Result<+T> = Ok(value: T) | Fail(error: Error)

  const BLANKS := " \t\n"
  const NAME_ENDS := " \t\n,(|"
  const VERSION_ENDS := " \t\n),|"
  const MAX_ALTERNATIVES := 64
  const MAX_RELATIONS := 2048

  /** A search in a C string also finds the terminating null character. */
  predicate OneOf(c: char, chars: string) {
    c == '\0' || c in chars
  }

  /* Input, as the text that is left. */

  function Skip(s: string, chars: string): (rest: string)
    ensures |rest| <= |s|
  {
    if s != "" && OneOf(s[0], chars) then Skip(s[1..], chars) else s
  }

  function Find(s: string, chars: string): (rest: string)
    ensures |rest| <= |s|
  {
    if s != "" && !OneOf(s[0], chars) then Find(s[1..], chars) else s
  }

  predicate LookingAt(s: string, c: char) {
    s != "" && s[0] == c
  }

  /** What has been passed between two points of the input. */
  function Passed(s: string, rest: string): string
    requires |rest| <= |s|
  {
    s[..|s| - |rest|]
  }

  /* One alternative. */

  datatype Condition = Condition(op: string, version: string)

  datatype Step =
    | End(rest: string)
    | Found(rest: string, name: string, condition: Option<Condition>)
    | Wrong(error: Error)

  /** The step of the iterator; all but the first alternative start with a bar. */
  function NextAlternative(s: string, first: bool): (step: Step)
    ensures step.Found? ==> |step.rest| < |s|
    ensures step.End? ==> |step.rest| <= |s|
  {
    var start := Skip(s, BLANKS);
    if first then ParseAlternative(start)
    else if LookingAt(start, '|') then ParseAlternative(Skip(start[1..], BLANKS))
    else End(start)
  }

  function ParseAlternative(s: string): (step: Step)
    ensures step.Found? ==> |step.rest| < |s|
    ensures step.End? ==> |step.rest| <= |s|
  {
    var afterName := Find(s, NAME_ENDS);
    var name := Passed(s, afterName);
    if name == "" then End(afterName)
    else
      var next := Skip(afterName, BLANKS);
      if LookingAt(next, '(') then ParseCondition(next[1..], name) else Found(next, name, None)
  }

  function ParseCondition(s: string, name: string): (step: Step)
    ensures step.Found? ==> |step.rest| < |s|
    ensures !step.End?
  {
    var op := Skip(s, BLANKS);
    var afterOp := Skip(op, "<>=");
    var version := Skip(afterOp, BLANKS);
    if LookingAt(version, ')') || LookingAt(version, ',') || LookingAt(version, '|') then Wrong(MissingVersion)
    else
      var afterVersion := Find(version, VERSION_ENDS);
      var close := Skip(afterVersion, BLANKS);
      if LookingAt(close, ')')
      then Found(close[1..], name, Some(Condition(Passed(op, afterOp), Passed(version, afterVersion))))
      else Wrong(MissingParenthesis)
  }

  /** A single angle bracket includes equality. */
  function OpCode(op: string): Option<Versions.Op> {
    if op == "=" then Some(Versions.Eq)
    else if op == "<<" then Some(Versions.Less)
    else if op == "<=" || op == "<" then Some(Versions.LessEq)
    else if op == ">>" then Some(Versions.Greater)
    else if op == ">=" || op == ">" then Some(Versions.GreaterEq)
    else None
  }

  function MakeAlternative(name: string, condition: Option<Condition>): Result<Alternative> {
    match condition
    case None => Ok(Alternative(Versions.Any, name, None))
    case Some(Condition(op, version)) =>
      match OpCode(op) {
        case Some(code) => Ok(Alternative(code, name, Some(version)))
        case None => Fail(UnknownOperator(op))
      }
  }

  /* Lists. */

  /** The alternatives of a relation, after `n` of them, and what follows. */
  function ParseAlternatives(s: string, first: bool, n: nat): (r: Result<(seq<Alternative>, string)>)
    ensures r.Ok? ==> |r.value.1| <= |s|
    decreases |s|
  {
    match NextAlternative(s, first)
    case End(rest) => Ok(([], rest))
    case Wrong(error) => Fail(error)
    case Found(rest, name, condition) =>
      match MakeAlternative(name, condition) {
        case Fail(error) => Fail(error)
        case Ok(alternative) =>
          if n >= MAX_ALTERNATIVES then Fail(TooManyAlternatives)
          else
            match ParseAlternatives(rest, false, n + 1) {
              case Fail(error) => Fail(error)
              case Ok((more, after)) => Ok(([alternative] + more, after))
            }
      }
  }

  /** The relations of a text, after `n` of them; those without alternatives are left out. */
  function ParseRelations(s: string, n: nat): Result<seq<seq<Alternative>>>
    decreases |s|
  {
    match ParseAlternatives(s, true, 0)
    case Fail(error) => Fail(error)
    case Ok((alternatives, after)) =>
      if alternatives != [] && n >= MAX_RELATIONS then Fail(TooManyRelations)
      else
        var own := if alternatives != [] then [alternatives] else [];
        var next := Skip(after, " \t");
        if LookingAt(next, ',') then
          match ParseRelations(next[1..], n + |own|) {
            case Fail(error) => Fail(error)
            case Ok(more) => Ok(own + more)
          }
        else Ok(own)
  }

  /* Printing. */

  function OpName(op: Versions.Op): string {
    match op
    case Any => ""
    case Eq => "="
    case Less => "<<"
    case LessEq => "<="
    case Greater => ">>"
    case GreaterEq => ">="
  }

  function ShowAlternative(a: Alternative): string {
    a.name + if a.op.Any? || a.version.None? then "" else " (" + OpName(a.op) + " " + a.version.value + ")"
  }

  function ShowRelation(alternatives: seq<Alternative>): string {
    if alternatives == [] then ""
    else ShowAlternative(alternatives[0]) + ShowMoreAlternatives(alternatives[1..])
  }

  function ShowMoreAlternatives(alternatives: seq<Alternative>): string {
    if alternatives == [] then ""
    else " | " + ShowAlternative(alternatives[0]) + ShowMoreAlternatives(alternatives[1..])
  }

  function ShowRelations(relations: seq<seq<Alternative>>): string {
    if relations == [] then ""
    else if |relations| == 1 then ShowRelation(relations[0])
    else ShowRelation(relations[0]) + ", " + ShowRelations(relations[1..])
  }

  /* What can be parsed and printed. */

  predicate Free(s: string, chars: string) {
    s != "" && forall i :: 0 <= i < |s| ==> !OneOf(s[i], chars)
  }

  predicate AlternativeOk(a: Alternative) {
    && Free(a.name, NAME_ENDS) && (a.op.Any? <==> a.version.None?)
    && (a.version.Some? ==> Free(a.version.value, VERSION_ENDS))
  }

  predicate RelationOk(alternatives: seq<Alternative>) {
    0 < |alternatives| <= MAX_ALTERNATIVES && forall i :: 0 <= i < |alternatives| ==> AlternativeOk(alternatives[i])
  }

  predicate RelationsOk(relations: seq<seq<Alternative>>) {
    |relations| <= MAX_RELATIONS && forall i :: 0 <= i < |relations| ==> RelationOk(relations[i])
  }

  /* Parsing what was printed. */

  lemma {:induction false} SkipTo(pre: string, post: string, chars: string)
    requires forall i :: 0 <= i < |pre| ==> OneOf(pre[i], chars)
    requires post != "" ==> !OneOf(post[0], chars)
    ensures Skip(pre + post, chars) == post
  {
    if pre == "" {
      assert pre + post == post;
    } else {
      assert (pre + post)[1..] == pre[1..] + post;
      SkipTo(pre[1..], post, chars);
    }
  }

  lemma {:induction false} FindTo(pre: string, post: string, chars: string)
    requires forall i :: 0 <= i < |pre| ==> !OneOf(pre[i], chars)
    requires post != "" ==> OneOf(post[0], chars)
    ensures Find(pre + post, chars) == post && Passed(pre + post, post) == pre
  {
    if pre == "" {
      assert pre + post == post;
    } else {
      assert (pre + post)[1..] == pre[1..] + post;
      FindTo(pre[1..], post, chars);
    }
  }

  /** Printed alternatives are followed by nothing, a blank and a bar, or a comma. */
  predicate Follows(post: string) {
    post == "" || post[0] == ',' || (|post| >= 2 && post[0] == ' ' && post[1] == '|')
  }

  lemma FollowsSkipped(post: string)
    requires Follows(post)
    ensures var rest := Skip(post, BLANKS); !LookingAt(rest, '(')
    ensures post != "" && post[0] == ' ' ==> Skip(post, BLANKS) == post[1..]
    ensures post != "" && post[0] == ',' ==> Skip(post, BLANKS) == post
  {
    if post != "" && post[0] == ' ' {
      SkipTo(" ", post[1..], BLANKS);
      assert " " + post[1..] == post;
    } else {
      SkipTo("", post, BLANKS);
    }
  }

  function ConditionText(a: Alternative): string {
    OpName(a.op) + " " + (if a.version.Some? then a.version.value else "") + ")"
  }

  lemma PassedTo(pre: string, post: string)
    ensures Passed(pre + post, post) == pre
  {
  }

  /** Nothing is skipped where a text starts with something else. */
  lemma SkipNothing(s: string, chars: string)
    requires s != "" ==> !OneOf(s[0], chars)
    ensures Skip(s, chars) == s
  {
  }

  lemma OpShown(a: Alternative, inner: string)
    requires AlternativeOk(a) && a.version.Some?
    ensures var s := OpName(a.op) + (" " + inner);
            && Skip(s, BLANKS) == s && Skip(s, "<>=") == " " + inner
            && Passed(s, " " + inner) == OpName(a.op) && OpCode(OpName(a.op)) == Some(a.op)
  {
    var op, tail := OpName(a.op), " " + inner;
    SkipNothing(op + tail, BLANKS);
    SkipTo(op, tail, "<>=");
    PassedTo(op, tail);
  }

  lemma VersionShown(version: string, post: string)
    requires Free(version, VERSION_ENDS)
    ensures var inner := version + (")" + post);
            && Skip(" " + inner, BLANKS) == inner
            && !LookingAt(inner, ')') && !LookingAt(inner, ',') && !LookingAt(inner, '|')
            && Find(inner, VERSION_ENDS) == ")" + post && Passed(inner, ")" + post) == version
            && Skip(")" + post, BLANKS) == ")" + post
  {
    hide Skip, Find;
    var inner := version + (")" + post);
    assert inner[0] == version[0] && !OneOf(version[0], VERSION_ENDS);
    SkipTo(" ", inner, BLANKS);
    FindTo(version, ")" + post, VERSION_ENDS);
    SkipNothing(")" + post, BLANKS);
  }

  lemma ConditionShown(a: Alternative, post: string)
    requires AlternativeOk(a) && a.version.Some?
    ensures ParseCondition(ConditionText(a) + post, a.name)
            == Found(post, a.name, Some(Condition(OpName(a.op), a.version.value)))
    ensures OpCode(OpName(a.op)) == Some(a.op)
  {
    hide Skip, Find, LookingAt, Passed, OpCode, Free;
    var op, version := OpName(a.op), a.version.value;
    var inner := version + (")" + post);
    OpShown(a, inner);
    VersionShown(version, post);
    assert ConditionText(a) + post == op + (" " + inner);
    assert (")" + post)[1..] == post;
    assert LookingAt(")" + post, ')') by { LooksAt(')', post); }
  }

  lemma LooksAt(c: char, post: string)
    ensures LookingAt([c] + post, c)
  {
  }

  lemma NameShown(name: string, post: string)
    requires Free(name, NAME_ENDS) && (post != "" ==> OneOf(post[0], NAME_ENDS))
    ensures Find(name + post, NAME_ENDS) == post && Passed(name + post, post) == name
  {
    FindTo(name, post, NAME_ENDS);
  }

  lemma AlternativeShown(a: Alternative, post: string)
    requires AlternativeOk(a) && Follows(post)
    ensures var step := ParseAlternative(ShowAlternative(a) + post);
            && step.Found? && MakeAlternative(step.name, step.condition) == Ok(a)
            && Skip(step.rest, BLANKS) == Skip(post, BLANKS)
  {
    hide Skip, Find, ParseCondition, LookingAt, Passed, OpCode, ConditionText, Follows, Free;
    if a.version.None? {
      PlainShown(a, post);
    } else {
      var condition := ConditionText(a) + post;
      var tail := " (" + condition;
      assert ShowAlternative(a) + post == a.name + tail by { ShownWith(a, post); }
      NameShown(a.name, tail);
      assert a.name != "" by { NotEmpty(a.name, NAME_ENDS); }
      assert tail == " " + ("(" + condition);
      SkipTo(" ", "(" + condition, BLANKS);
      LooksAt('(', condition);
      assert ("(" + condition)[1..] == condition;
      ConditionShown(a, post);
    }
  }

  lemma NotEmpty(s: string, chars: string)
    requires Free(s, chars)
    ensures s != ""
  {
  }

  lemma ShownWith(a: Alternative, post: string)
    requires AlternativeOk(a) && a.version.Some?
    ensures ShowAlternative(a) + post == a.name + (" (" + (ConditionText(a) + post))
  {
    assert ShowAlternative(a) == a.name + (" (" + ConditionText(a));
  }

  lemma PlainShown(a: Alternative, post: string)
    requires AlternativeOk(a) && Follows(post) && a.version.None?
    ensures var step := ParseAlternative(ShowAlternative(a) + post);
            && step.Found? && MakeAlternative(step.name, step.condition) == Ok(a)
            && Skip(step.rest, BLANKS) == Skip(post, BLANKS)
  {
    hide Skip, Find, ParseCondition;
    assert ShowAlternative(a) + post == a.name + post;
    NameShown(a.name, post);
    FollowsSkipped(post);
    SkipTwice(post);
  }

  lemma {:induction false} SkipTwice(s: string)
    ensures Skip(Skip(s, BLANKS), BLANKS) == Skip(s, BLANKS)
  {
    if s != "" && OneOf(s[0], BLANKS) {
      SkipTwice(s[1..]);
    }
  }

  /** A step starts by skipping blanks, so blanks before it do not matter. */
  lemma StepBlank(s: string, s': string, first: bool)
    requires Skip(s, BLANKS) == Skip(s', BLANKS)
    ensures NextAlternative(s, first) == NextAlternative(s', first)
  {
    hide Skip, ParseAlternative;
  }

  lemma AlternativesBlank(s: string, s': string, first: bool, n: nat)
    requires Skip(s, BLANKS) == Skip(s', BLANKS)
    ensures ParseAlternatives(s, first, n) == ParseAlternatives(s', first, n)
  {
    hide Skip, ParseAlternative, NextAlternative;
    StepBlank(s, s', first);
  }

  /** What is left where a list of alternatives ends. */
  lemma AlternativesEnd(post: string, n: nat)
    requires post == "" || post[0] == ','
    ensures ParseAlternatives(post, false, n) == Ok(([], post))
  {
    SkipNothing(post, BLANKS);
  }

  lemma BarSkipped(s: string)
    requires s != "" && !OneOf(s[0], BLANKS)
    ensures Skip(" | " + s, BLANKS) == "| " + s && LookingAt("| " + s, '|')
    ensures Skip(("| " + s)[1..], BLANKS) == s
  {
    hide Skip;
    assert " | " + s == " " + ("| " + s);
    SkipTo(" ", "| " + s, BLANKS);
    assert ("| " + s)[1..] == " " + s;
    SkipTo(" ", s, BLANKS);
  }

  lemma NameStarts(a: Alternative, post: string)
    requires AlternativeOk(a)
    ensures var s := ShowAlternative(a) + post; s != "" && !OneOf(s[0], BLANKS)
  {
    assert (ShowAlternative(a) + post)[0] == a.name[0] && !OneOf(a.name[0], NAME_ENDS);
  }

  lemma MoreStarts(alternatives: seq<Alternative>, post: string)
    requires post == "" || post[0] == ','
    ensures Follows(ShowMoreAlternatives(alternatives) + post)
  {
    if alternatives == [] {
      assert "" + post == post;
    } else {
      var more := ShowMoreAlternatives(alternatives) + post;
      assert more[0] == ' ' && more[1] == '|';
    }
  }

  lemma {:induction false} MoreShown(alternatives: seq<Alternative>, n: nat, post: string)
    requires forall i :: 0 <= i < |alternatives| ==> AlternativeOk(alternatives[i])
    requires n + |alternatives| <= MAX_ALTERNATIVES && (post == "" || post[0] == ',')
    ensures ParseAlternatives(ShowMoreAlternatives(alternatives) + post, false, n) == Ok((alternatives, post))
    decreases |alternatives|, 0
  {
    hide Skip, ParseAlternative, AlternativeOk, ShowAlternative, MakeAlternative, LookingAt, Follows;
    if alternatives == [] {
      assert ShowMoreAlternatives(alternatives) + post == post;
      AlternativesEnd(post, n);
    } else {
      var a, rest := alternatives[0], ShowMoreAlternatives(alternatives[1..]) + post;
      var own := ShowAlternative(a) + rest;
      assert ShowMoreAlternatives(alternatives) + post == " | " + own;
      NameStarts(a, rest);
      BarSkipped(own);
      OneShown(alternatives, n, post, " | " + own, false);
    }
  }

  /** A step that comes to the first of some printed alternatives parses them all. */
  lemma {:induction false} OneShown(alternatives: seq<Alternative>, n: nat, post: string, s: string, first: bool)
    requires alternatives != [] && forall i :: 0 <= i < |alternatives| ==> AlternativeOk(alternatives[i])
    requires n + |alternatives| <= MAX_ALTERNATIVES && (post == "" || post[0] == ',')
    requires NextAlternative(s, first)
             == ParseAlternative(ShowAlternative(alternatives[0]) + (ShowMoreAlternatives(alternatives[1..]) + post))
    ensures ParseAlternatives(s, first, n) == Ok((alternatives, post))
    decreases |alternatives| - 1, 1
  {
    hide Skip, ParseAlternative, AlternativeOk, ShowAlternative, MakeAlternative, NextAlternative, Follows;
    var rest := ShowMoreAlternatives(alternatives[1..]) + post;
    MoreStarts(alternatives[1..], post);
    AlternativeShown(alternatives[0], rest);
    var step := NextAlternative(s, first);
    AlternativesBlank(step.rest, rest, false, n + 1);
    MoreShown(alternatives[1..], n + 1, post);
    assert [alternatives[0]] + alternatives[1..] == alternatives;
  }

  lemma RelationShown(alternatives: seq<Alternative>, post: string)
    requires RelationOk(alternatives) && (post == "" || post[0] == ',')
    ensures ParseAlternatives(ShowRelation(alternatives) + post, true, 0) == Ok((alternatives, post))
  {
    hide ParseAlternative, AlternativeOk, ShowAlternative, MakeAlternative;
    var rest := ShowMoreAlternatives(alternatives[1..]) + post;
    var s := ShowRelation(alternatives) + post;
    assert s == ShowAlternative(alternatives[0]) + rest;
    NameStarts(alternatives[0], rest);
    SkipNothing(s, BLANKS);
    OneShown(alternatives, 0, post, s, true);
  }

  /** Parsing what was printed gives the relations back, in order. */
  lemma {:induction false} ParseShown(relations: seq<seq<Alternative>>, n: nat)
    requires n + |relations| <= MAX_RELATIONS && forall i :: 0 <= i < |relations| ==> RelationOk(relations[i])
    ensures ParseRelations(ShowRelations(relations), n) == Ok(relations)
    decreases |relations|
  {
    hide ParseAlternatives, RelationOk, ShowRelation;
    if relations == [] {
      NoRelations(n);
    } else if |relations| == 1 {
      RelationShown(relations[0], "");
      NotEmptyRelation(relations[0]);
      assert ShowRelation(relations[0]) + "" == ShowRelation(relations[0]);
      SkipNothing("", " \t");
      assert [relations[0]] == relations;
    } else {
      var more := ShowRelations(relations[1..]);
      var post := ", " + more;
      RelationShown(relations[0], post);
      NotEmptyRelation(relations[0]);
      assert ShowRelation(relations[0]) + ", " + more == ShowRelation(relations[0]) + post;
      SkipNothing(post, " \t");
      assert post[1..] == " " + more;
      BlankFirst(more, n + 1);
      ParseShown(relations[1..], n + 1);
      assert [relations[0]] + relations[1..] == relations;
    }
  }

  lemma NotEmptyRelation(alternatives: seq<Alternative>)
    requires RelationOk(alternatives)
    ensures alternatives != []
  {
  }

  lemma NoRelations(n: nat)
    ensures ParseRelations("", n) == Ok([])
  {
  }

  lemma BlankFirst(s: string, n: nat)
    ensures ParseRelations(" " + s, n) == ParseRelations(s, n)
  {
    hide ParseAlternatives;
    assert (" " + s)[1..] == s;
    assert Skip(" " + s, BLANKS) == Skip(s, BLANKS);
    AlternativesBlank(" " + s, s, true, 0);
  }

  /* What parsing gives can be printed. */

  lemma {:induction false} SkipStops(s: string, chars: string)
    ensures Skip(s, chars) != "" ==> !OneOf(Skip(s, chars)[0], chars)
  {
    if s != "" && OneOf(s[0], chars) {
      SkipStops(s[1..], chars);
    }
  }

  lemma {:induction false} FoundFree(s: string, chars: string)
    ensures var name := Passed(s, Find(s, chars)); name != "" ==> Free(name, chars)
  {
    if s != "" && !OneOf(s[0], chars) {
      FoundFree(s[1..], chars);
      var name := Passed(s, Find(s, chars));
      assert name == [s[0]] + Passed(s[1..], Find(s[1..], chars));
    }
  }

  lemma {:induction false} FoundStart(s: string, chars: string)
    ensures Passed(s, Find(s, chars)) == "" ==> s == "" || OneOf(s[0], chars)
  {
  }

  lemma ConditionParsed(s: string, name: string)
    ensures var step := ParseCondition(s, name);
            step.Found? ==>
              step.name == name && step.condition.Some? && Free(step.condition.value.version, VERSION_ENDS)
  {
    var version := Skip(Skip(Skip(s, BLANKS), "<>="), BLANKS);
    SkipStops(Skip(Skip(s, BLANKS), "<>="), BLANKS);
    FoundFree(version, VERSION_ENDS);
    FoundStart(version, VERSION_ENDS);
    var afterVersion := Find(version, VERSION_ENDS);
    if Passed(version, afterVersion) == "" {
      assert afterVersion == version;
      SkipNothing(version, BLANKS);
    }
  }

  lemma StepParsed(s: string, first: bool)
    ensures var step := NextAlternative(s, first);
            step.Found? && MakeAlternative(step.name, step.condition).Ok?
            ==> AlternativeOk(MakeAlternative(step.name, step.condition).value)
  {
    hide Skip, Find, ParseCondition, Free;
    var start := Skip(s, BLANKS);
    var at := if first || start == "" then start else Skip(start[1..], BLANKS);
    FoundFree(at, NAME_ENDS);
    var next := Skip(Find(at, NAME_ENDS), BLANKS);
    if next != "" {
      ConditionParsed(next[1..], Passed(at, Find(at, NAME_ENDS)));
    }
  }

  lemma {:induction false} AlternativesParsed(s: string, first: bool, n: nat)
    requires n <= MAX_ALTERNATIVES
    ensures var r := ParseAlternatives(s, first, n);
            r.Ok? ==> n + |r.value.0| <= MAX_ALTERNATIVES
                      && forall i :: 0 <= i < |r.value.0| ==> AlternativeOk(r.value.0[i])
    decreases |s|
  {
    hide NextAlternative, MakeAlternative, AlternativeOk;
    var step := NextAlternative(s, first);
    if step.Found? && n < MAX_ALTERNATIVES {
      StepParsed(s, first);
      AlternativesParsed(step.rest, false, n + 1);
    }
  }

  lemma {:induction false} RelationsParsed(s: string, n: nat)
    requires n <= MAX_RELATIONS
    ensures var r := ParseRelations(s, n);
            r.Ok? ==> n + |r.value| <= MAX_RELATIONS && forall i :: 0 <= i < |r.value| ==> RelationOk(r.value[i])
    decreases |s|
  {
    hide ParseAlternatives, AlternativeOk;
    AlternativesParsed(s, true, 0);
    var r := ParseAlternatives(s, true, 0);
    if r.Ok? && !(r.value.0 != [] && n >= MAX_RELATIONS) {
      var next := Skip(r.value.1, " \t");
      if LookingAt(next, ',') {
        RelationsParsed(next[1..], n + if r.value.0 != [] then 1 else 0);
      }
    }
  }

  /** Relations come out of the parser exactly when they are well formed; the text printed
      for them is then one that they come from. */
  lemma ParsedIsOk(relations: seq<seq<Alternative>>)
    ensures RelationsOk(relations) <==> exists s :: ParseRelations(s, 0) == Ok(relations)
    ensures RelationsOk(relations) ==> ParseRelations(ShowRelations(relations), 0) == Ok(relations)
  {
    hide ParseRelations, RelationOk, ShowRelations;
    if RelationsOk(relations) {
      ParseShown(relations, 0);
    }
    if s :| ParseRelations(s, 0) == Ok(relations) {
      RelationsParsed(s, 0);
    }
  }

  /* The parser over an input with a position. */

  class Input {
    const text: string
    var pos: nat

    ghost predicate Valid()
      reads this
    {
      pos <= |text|
    }

    ghost function Left(): string
      requires Valid()
      reads this
    {
      text[pos..]
    }

    constructor (text: string)
      ensures Valid() && this.text == text && pos == 0
    {
      this.text := text;
      pos := 0;
    }

    method SkipAll(chars: string)
      requires Valid()
      modifies this
      ensures Valid() && pos >= old(pos) && Left() == Skip(old(Left()), chars)
    {
      while pos < |text| && OneOf(text[pos], chars)
        invariant Valid() && pos >= old(pos) && Skip(Left(), chars) == Skip(old(Left()), chars)
      {
        assert Left()[1..] == text[pos + 1..];
        pos := pos + 1;
      }
    }

    method FindOne(chars: string)
      requires Valid()
      modifies this
      ensures Valid() && pos >= old(pos) && Left() == Find(old(Left()), chars)
      ensures text[old(pos)..pos] == Passed(old(Left()), Left())
    {
      while pos < |text| && !OneOf(text[pos], chars)
        invariant Valid() && pos >= old(pos) && Find(Left(), chars) == Find(old(Left()), chars)
      {
        assert Left()[1..] == text[pos + 1..];
        pos := pos + 1;
      }
    }

    predicate At(c: char)
      requires Valid()
      reads this
      ensures At(c) == LookingAt(Left(), c)
    {
      pos < |text| && text[pos] == c
    }

    method Advance()
      requires Valid() && pos < |text|
      modifies this
      ensures Valid() && pos == old(pos) + 1 && Left() == old(Left())[1..]
    {
      pos := pos + 1;
    }

    method NextRelation() returns (more: bool)
      requires Valid()
      modifies this
      ensures Valid() && pos >= old(pos)
      ensures var next := Skip(old(Left()), " \t");
              more == LookingAt(next, ',') && Left() == if more then next[1..] else next
      ensures more ==> pos > old(pos)
    {
      SkipAll(" \t");
      if At(',') {
        Advance();
        return true;
      }
      return false;
    }
  }

  /** The iterator over the alternatives of a relation. */
  class Iterator {
    const input: Input
    var first: bool
    var name: Option<string>
    var condition: Option<Condition>

    constructor (input: Input)
      ensures this.input == input && first
    {
      this.input := input;
      first := true;
      name := None;
      condition := None;
    }

    method Step() returns (error: Option<Error>)
      requires input.Valid()
      modifies this, input
      ensures input.Valid() && input.pos >= old(input.pos)
      ensures match old(NextAlternative(input.Left(), first)) {
                case Wrong(e) => error == Some(e)
                case End(rest) => error == None && name == None && input.Left() == rest
                case Found(rest, n, c) =>
                  error == None && name == Some(n) && condition == c && !first && input.Left() == rest
                  && input.pos > old(input.pos)
              }
    {
      hide Skip, Find;
      input.SkipAll(BLANKS);
      if !first {
        if input.At('|') {
          input.Advance();
          input.SkipAll(BLANKS);
        } else {
          name := None;
          return None;
        }
      }
      error := Parse();
    }

    method Parse() returns (error: Option<Error>)
      requires input.Valid()
      modifies this, input
      ensures input.Valid() && input.pos >= old(input.pos)
      ensures match old(ParseAlternative(input.Left())) {
                case Wrong(e) => error == Some(e)
                case End(rest) => error == None && name == None && input.Left() == rest
                case Found(rest, n, c) =>
                  error == None && name == Some(n) && condition == c && !first && input.Left() == rest
                  && input.pos > old(input.pos)
              }
    {
      hide Skip, Find, ParseCondition;
      var mark := input.pos;
      input.FindOne(NAME_ENDS);
      var own := input.text[mark..input.pos];
      if own == "" {
        name := None;
        return None;
      }
      input.SkipAll(BLANKS);
      if input.At('(') {
        input.Advance();
        error := ParseVersion(own);
      } else {
        name, condition, first := Some(own), None, false;
        error := None;
      }
    }

    method ParseVersion(own: string) returns (error: Option<Error>)
      requires input.Valid()
      modifies this, input
      ensures input.Valid() && input.pos >= old(input.pos)
      ensures match old(ParseCondition(input.Left(), own)) {
                case Wrong(e) => error == Some(e)
                case Found(rest, n, c) =>
                  error == None && name == Some(n) && condition == c && !first && input.Left() == rest
                  && input.pos > old(input.pos)
              }
    {
      hide Skip, Find;
      input.SkipAll(BLANKS);
      ghost var op := input.Left();
      var opStart := input.pos;
      input.SkipAll("<>=");
      var opText := input.text[opStart..input.pos];
      assert opText == Passed(op, input.Left());
      input.SkipAll(BLANKS);
      if input.At(')') || input.At(',') || input.At('|') {
        return Some(MissingVersion);
      }
      var versionStart := input.pos;
      input.FindOne(VERSION_ENDS);
      var versionText := input.text[versionStart..input.pos];
      input.SkipAll(BLANKS);
      if !input.At(')') {
        return Some(MissingParenthesis);
      }
      input.Advance();
      name, condition, first := Some(own), Some(Condition(opText, versionText)), false;
      error := None;
    }
  }

  /* The loops over alternatives and relations. */

  function JoinAlternatives(done: seq<Alternative>, r: Result<(seq<Alternative>, string)>)
    : Result<(seq<Alternative>, string)>
  {
    match r
    case Fail(error) => Fail(error)
    case Ok((more, after)) => Ok((done + more, after))
  }

  function JoinRelations(done: seq<seq<Alternative>>, r: Result<seq<seq<Alternative>>>): Result<seq<seq<Alternative>>> {
    match r
    case Fail(error) => Fail(error)
    case Ok(more) => Ok(done + more)
  }

  /** The iterator stands at an alternative, after `n` of them. */
  function FromAlternative(rest: string, name: string, condition: Option<Condition>, n: nat)
    : Result<(seq<Alternative>, string)>
  {
    match MakeAlternative(name, condition)
    case Fail(error) => Fail(error)
    case Ok(alternative) =>
      if n >= MAX_ALTERNATIVES then Fail(TooManyAlternatives)
      else JoinAlternatives([alternative], ParseAlternatives(rest, false, n + 1))
  }

  /** The iterator has made a step, after the alternatives that are done. */
  function FromStep(done: seq<Alternative>, step: Step): Result<(seq<Alternative>, string)> {
    match step
    case Wrong(error) => Fail(error)
    case End(rest) => Ok((done, rest))
    case Found(rest, name, condition) => JoinAlternatives(done, FromAlternative(rest, name, condition, |done|))
  }

  lemma StepJoins(done: seq<Alternative>, s: string, first: bool)
    ensures JoinAlternatives(done, ParseAlternatives(s, first, |done|)) == FromStep(done, NextAlternative(s, first))
    ensures done == [] ==> ParseAlternatives(s, first, |done|) == FromStep(done, NextAlternative(s, first))
  {
    hide NextAlternative, MakeAlternative;
    assert done + [] == done;
    var r := ParseAlternatives(s, first, |done|);
    if r.Ok? {
      assert [] + r.value.0 == r.value.0;
    }
  }

  method ReadAlternatives(input: Input) returns (r: Result<seq<Alternative>>)
    requires input.Valid()
    modifies input
    ensures input.Valid() && input.pos >= old(input.pos)
    ensures match old(ParseAlternatives(input.Left(), true, 0)) {
              case Fail(error) => r == Fail(error)
              case Ok((alternatives, after)) => r == Ok(alternatives) && input.Left() == after
            }
  {
    hide NextAlternative, MakeAlternative, Skip;
    ghost var whole := ParseAlternatives(input.Left(), true, 0);
    var alternatives: seq<Alternative> := [];
    StepJoins([], input.Left(), true);
    var iter := new Iterator(input);
    var error := iter.Step();
    if error.Some? {
      return Fail(error.value);
    }
    while iter.name.Some?
      invariant input.Valid() && input.pos >= old(input.pos) && iter.input == input
      invariant iter.name.Some? ==> !iter.first
      invariant var n := |alternatives|;
                whole == if iter.name.None? then Ok((alternatives, input.Left()))
                         else JoinAlternatives(alternatives,
                                               FromAlternative(input.Left(), iter.name.value, iter.condition, n))
      decreases |input.text| - input.pos, iter.name.Some?
    {
      var made := MakeAlternative(iter.name.value, iter.condition);
      if made.Fail? {
        return Fail(made.error);
      }
      if |alternatives| >= MAX_ALTERNATIVES {
        return Fail(TooManyAlternatives);
      }
      ghost var rest := ParseAlternatives(input.Left(), false, |alternatives| + 1);
      JoinTwice(alternatives, [made.value], rest);
      alternatives := alternatives + [made.value];
      StepJoins(alternatives, input.Left(), false);
      error := iter.Step();
      if error.Some? {
        return Fail(error.value);
      }
    }
    r := Ok(alternatives);
  }

  lemma JoinTwice(a: seq<Alternative>, b: seq<Alternative>, r: Result<(seq<Alternative>, string)>)
    ensures JoinAlternatives(a, JoinAlternatives(b, r)) == JoinAlternatives(a + b, r)
  {
    if r.Ok? {
      assert a + (b + r.value.0) == (a + b) + r.value.0;
    }
  }

  /** The alternatives of a relation have been read, after the relations that are done. */
  function FromRelation(done: seq<seq<Alternative>>, own: seq<Alternative>, after: string)
    : Result<seq<seq<Alternative>>>
  {
    if own != [] && |done| >= MAX_RELATIONS then Fail(TooManyRelations)
    else
      var next := Skip(after, " \t");
      var now := if own != [] then done + [own] else done;
      if LookingAt(next, ',') then JoinRelations(now, ParseRelations(next[1..], |now|)) else Ok(now)
  }

  lemma RelationsStep(done: seq<seq<Alternative>>, s: string)
    ensures var parsed := ParseAlternatives(s, true, 0);
            JoinRelations(done, ParseRelations(s, |done|))
            == if parsed.Fail? then Fail(parsed.error) else FromRelation(done, parsed.value.0, parsed.value.1)
  {
    hide ParseAlternatives, Skip, FromRelation;
    var parsed := ParseAlternatives(s, true, 0);
    if parsed.Ok? {
      var (own, after) := parsed.value;
      if own != [] && |done| >= MAX_RELATIONS {
        TooMany(done, own, after);
      } else {
        var next := Skip(after, " \t");
        var now := if own != [] then [own] else [];
        FromRelationIs(done, own, after);
        if LookingAt(next, ',') {
          RelationsTwice(done, now, ParseRelations(next[1..], |done| + |now|));
        }
      }
    }
  }

  lemma TooMany(done: seq<seq<Alternative>>, own: seq<Alternative>, after: string)
    requires own != [] && |done| >= MAX_RELATIONS
    ensures FromRelation(done, own, after) == Fail(TooManyRelations)
  {
    hide Skip, ParseRelations;
  }

  lemma FromRelationIs(done: seq<seq<Alternative>>, own: seq<Alternative>, after: string)
    requires own == [] || |done| < MAX_RELATIONS
    ensures var next := Skip(after, " \t");
            var now := done + if own != [] then [own] else [];
            FromRelation(done, own, after)
            == if LookingAt(next, ',') then JoinRelations(now, ParseRelations(next[1..], |now|)) else Ok(now)
  {
    hide Skip, ParseRelations, JoinRelations;
    assert done + [] == done;
  }

  lemma NoneBefore(r: Result<seq<seq<Alternative>>>)
    ensures JoinRelations([], r) == r
  {
    if r.Ok? {
      assert [] + r.value == r.value;
    }
  }

  method ReadRelations(text: string) returns (r: Result<seq<seq<Alternative>>>)
    ensures r == ParseRelations(text, 0)
  {
    hide ParseAlternatives, Skip;
    var input := new Input(text);
    assert input.Left() == text;
    var relations: seq<seq<Alternative>> := [];
    var more := true;
    NoneBefore(ParseRelations(text, 0));
    while more
      invariant input.Valid() && fresh(input)
      invariant ParseRelations(text, 0)
                == if more then JoinRelations(relations, ParseRelations(input.Left(), |relations|)) else Ok(relations)
      decreases |input.text| - input.pos, more
    {
      RelationsStep(relations, input.Left());
      var read := ReadAlternatives(input);
      if read.Fail? {
        return Fail(read.error);
      }
      if read.value != [] {
        if |relations| >= MAX_RELATIONS {
          return Fail(TooManyRelations);
        }
        relations := relations + [read.value];
      }
      more := input.NextRelation();
    }
    r := Ok(relations);
  }

  lemma RelationsTwice(a: seq<seq<Alternative>>, b: seq<seq<Alternative>>, r: Result<seq<seq<Alternative>>>)
    ensures JoinRelations(a, JoinRelations(b, r)) == JoinRelations(a + b, r)
  {
    if r.Ok? {
      assert a + (b + r.value) == (a + b) + r.value;
    }
  }
}
