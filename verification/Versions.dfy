/** Comparing Debian version numbers, as in section 5.6.12 of the Debian Policy
    Manual, except that a missing revision is not the same as revision 0. */
module Versions {
  import opened Basics

  /* Characters. */

  predicate IsDigit(c: char) {
    '0' <= c <= '9'
  }

  predicate IsAlpha(c: char) {
    'a' <= c <= 'z' || 'A' <= c <= 'Z'
  }

  /** The weight of a character in a textual part. Digits weigh as much as the end. */
  function Order(c: char): int {
    if c == '~' then -1
    else if IsDigit(c) then 0
    else if c == '\0' then 0
    else if IsAlpha(c) then c as int
    else c as int + 256
  }

  /** Version text is ASCII without zero bytes. */
  predicate Plain(s: string) {
    forall i :: 0 <= i < |s| ==> 0 < s[i] as int < 128
  }

  /* Keys: the meaning of a fragment. */

  /** The length of the leading digit run. */
  function Digits(s: string): (n: nat)
    ensures n <= |s| && (forall i :: 0 <= i < n ==> IsDigit(s[i])) && (n < |s| ==> !IsDigit(s[n]))
  {
    if s == "" || !IsDigit(s[0]) then 0 else 1 + Digits(s[1..])
  }

  function DigitValue(c: char): nat
    requires IsDigit(c)
  {
    c as int - '0' as int
  }

  function Number(s: string): nat
    requires forall i :: 0 <= i < |s| ==> IsDigit(s[i])
  {
    if s == "" then 0 else 10 * Number(s[..|s| - 1]) + DigitValue(s[|s| - 1])
  }

  /** A fragment as a list of numbers: the weights of its text, and for every
      number a zero that ends the text before it and its value. */
  function Key(s: string): seq<int> {
    if s == "" then []
    else if !IsDigit(s[0]) then [Order(s[0])] + Key(s[1..])
    else [0, Number(s[..Digits(s)])] + Key(s[Digits(s)..])
  }

  /** Lexicographic comparison, where missing entries count as zero. */
  function Lex(x: seq<int>, y: seq<int>): int
    decreases |x| + |y|
  {
    if x == [] && y == [] then 0
    else
      var (a, b) := (if x == [] then 0 else x[0], if y == [] then 0 else y[0]);
      if a < b then -1
      else if a > b then 1
      else Lex(if x == [] then [] else x[1..], if y == [] then [] else y[1..])
  }

  /** The empty fragment sorts after those that begin with `~` and before all others. */
  function Class(s: string): int {
    if s == "" then 1 else if s[0] == '~' then 0 else 2
  }

  function FragmentOrder(s: string, t: string): int {
    Lex([Class(s)] + Key(s), [Class(t)] + Key(t))
  }

  /* The comparison of padded lists is a total preorder. */

  lemma {:induction false} LexAntisymmetric(x: seq<int>, y: seq<int>)
    ensures Lex(y, x) == -Lex(x, y) && -1 <= Lex(x, y) <= 1
    decreases |x| + |y|
  {
    if x != [] || y != [] {
      LexAntisymmetric(if x == [] then [] else x[1..], if y == [] then [] else y[1..]);
    }
  }

  lemma {:induction false} LexTransitive(x: seq<int>, y: seq<int>, z: seq<int>)
    requires Lex(x, y) <= 0 && Lex(y, z) <= 0
    ensures Lex(x, z) <= 0
    ensures Lex(x, z) == 0 ==> Lex(x, y) == 0 && Lex(y, z) == 0
    decreases |x| + |y| + |z|
  {
    if x != [] || y != [] || z != [] {
      var x1, y1, z1 := if x == [] then [] else x[1..], if y == [] then [] else y[1..], if z == [] then [] else z[1..];
      LexEmpty();
      if Lex(x1, y1) <= 0 && Lex(y1, z1) <= 0 {
        LexTransitive(x1, y1, z1);
      }
    }
  }

  lemma LexEmpty()
    ensures Lex([], []) == 0
  {
  }

  /** Dropping equal heads. */
  lemma LexTail(a: int, x: seq<int>, y: seq<int>)
    ensures Lex([a] + x, [a] + y) == Lex(x, y)
  {
  }

  lemma LexZero(x: seq<int>)
    ensures Lex([], [0] + x) == Lex([], x) && Lex([0] + x, []) == Lex(x, [])
  {
    assert ([0] + x)[1..] == x;
    if x == [] {
      LexEmpty();
    }
  }

  /* Whole versions. */

  function IndexOf(s: string, c: char): (n: nat)
    ensures n <= |s| && (forall i :: 0 <= i < n ==> s[i] != c) && (n < |s| ==> s[n] == c)
  {
    if s == "" || s[0] == c then 0 else 1 + IndexOf(s[1..], c)
  }

  function StripZeros(s: string): string {
    if s != "" && s[0] == '0' then StripZeros(s[1..]) else s
  }

  /** The last dash that is not the first character, or the length. */
  function LastDash(s: string, n: nat): (r: nat)
    requires n <= |s|
    ensures r == |s| || (0 < r < n && s[r] == '-' && forall i :: r < i < n ==> s[i] != '-')
    ensures r == |s| ==> forall i :: 0 < i < n ==> s[i] != '-'
  {
    if n <= 1 then |s| else if s[n - 1] == '-' then n - 1 else LastDash(s, n - 1)
  }

  /** What stands before the first colon, without leading zeros: a zero epoch is
      the same as none. A colon in front does not end an epoch. */
  function Epoch(v: string): string {
    var colon := IndexOf(v, ':');
    if 0 < colon < |v| then StripZeros(v[..colon]) else ""
  }

  function Rest(v: string): string {
    var colon := IndexOf(v, ':');
    if 0 < colon < |v| then v[colon + 1..] else v
  }

  function Upstream(rest: string): string {
    rest[..LastDash(rest, |rest|)]
  }

  function Revision(rest: string): string {
    var dash := LastDash(rest, |rest|);
    if dash < |rest| then rest[dash + 1..] else ""
  }

  function VersionOrder(v: string, w: string): int {
    var r1 := FragmentOrder(Epoch(v), Epoch(w));
    if r1 != 0 then r1
    else
      var r2 := FragmentOrder(Upstream(Rest(v)), Upstream(Rest(w)));
      if r2 != 0 then r2 else FragmentOrder(Revision(Rest(v)), Revision(Rest(w)))
  }

  /** Versions are totally preordered. */
  lemma VersionOrderTotal(v: string, w: string)
    ensures VersionOrder(v, v) == 0
    ensures VersionOrder(w, v) == -VersionOrder(v, w) && -1 <= VersionOrder(v, w) <= 1
  {
    FragmentAntisymmetric(Epoch(v), Epoch(w));
    FragmentAntisymmetric(Upstream(Rest(v)), Upstream(Rest(w)));
    FragmentAntisymmetric(Revision(Rest(v)), Revision(Rest(w)));
    FragmentAntisymmetric(Epoch(v), Epoch(v));
    FragmentAntisymmetric(Upstream(Rest(v)), Upstream(Rest(v)));
    FragmentAntisymmetric(Revision(Rest(v)), Revision(Rest(v)));
  }

  lemma VersionOrderTransitive(u: string, v: string, w: string)
    requires VersionOrder(u, v) <= 0 && VersionOrder(v, w) <= 0
    ensures VersionOrder(u, w) <= 0
    ensures VersionOrder(u, w) == 0 ==> VersionOrder(u, v) == 0 && VersionOrder(v, w) == 0
  {
    FragmentTransitive(Epoch(u), Epoch(v), Epoch(w));
    FragmentTransitive(Upstream(Rest(u)), Upstream(Rest(v)), Upstream(Rest(w)));
    FragmentTransitive(Revision(Rest(u)), Revision(Rest(v)), Revision(Rest(w)));
  }

  /** Policy takes a missing revision as revision 0; here no version without a
      revision equals one that has any: it comes before, unless the other revision
      starts with a tilde. */
  lemma MissingRevision(v: string, w: string)
    requires Revision(Rest(v)) == "" && Revision(Rest(w)) != ""
    ensures VersionOrder(v, w) != 0
    ensures SameUpToRevision(v, w) ==> VersionOrder(v, w) == if Revision(Rest(w))[0] == '~' then 1 else -1
  {
    EmptyOrder(Revision(Rest(w)));
  }

  predicate SameUpToRevision(v: string, w: string) {
    FragmentOrder(Epoch(v), Epoch(w)) == 0 && FragmentOrder(Upstream(Rest(v)), Upstream(Rest(w))) == 0
  }

  /** The revision as policy sees it. */
  function PolicyRevision(v: string): string {
    if Revision(Rest(v)) == "" then "0" else Revision(Rest(v))
  }

  function PolicyOrder(v: string, w: string): int {
    var r1 := FragmentOrder(Epoch(v), Epoch(w));
    if r1 != 0 then r1
    else
      var r2 := FragmentOrder(Upstream(Rest(v)), Upstream(Rest(w)));
      if r2 != 0 then r2 else FragmentOrder(PolicyRevision(v), PolicyRevision(w))
  }

  /** Zeros, and then nothing or a tilde. */
  predicate ZeroLike(revision: string) {
    var n := Digits(revision);
    && n > 0 && (forall i :: 0 <= i < n ==> revision[i] == '0')
    && (n == |revision| || revision[n] == '~')
  }

  /** The order is that of policy exactly if it is not a missing revision against one of
      zeros, followed by nothing or a tilde, that decides. */
  lemma PolicyAgrees(v: string, w: string)
    requires Plain(v) && Plain(w)
    ensures VersionOrder(v, w) == PolicyOrder(v, w) <==>
            !(SameUpToRevision(v, w) && ((Revision(Rest(v)) == "" && ZeroLike(Revision(Rest(w))))
                                         || (Revision(Rest(w)) == "" && ZeroLike(Revision(Rest(v))))))
  {
    hide FragmentOrder, ZeroLike;
    var r, t := Revision(Rest(v)), Revision(Rest(w));
    assert Plain(r) && Plain(t);
    if r == "" && t != "" {
      PolicyFragment(t);
    } else if t == "" && r != "" {
      PolicyFragment(r);
      FragmentAntisymmetric("", r);
      FragmentAntisymmetric("0", r);
    } else if r == "" {
      FragmentAntisymmetric("", "");
      FragmentAntisymmetric("0", "0");
    }
    assert !ZeroLike("") by { NotZeroLike(); }
  }

  lemma NotZeroLike()
    ensures !ZeroLike("")
  {
  }

  /** A zero, or nothing, against text. */
  lemma ZeroText(x: seq<int>, t: string)
    requires x == [] || x == [0, 0]
    requires t != "" && !IsDigit(t[0]) && t[0] != '\0'
    ensures Lex(x, Key(t)) == if t[0] == '~' then 1 else -1
  {
    hide Key;
    assert Key(t)[0] == Order(t[0]) by { KeyText(t); }
  }

  lemma KeyText(t: string)
    requires t != "" && !IsDigit(t[0])
    ensures Key(t) != [] && Key(t)[0] == Order(t[0])
  {
  }

  /** A zero against a number and what follows it. */
  lemma ZeroNumber(t: string)
    requires t != "" && IsDigit(t[0])
    ensures Lex([0, 0], Key(t)) == if Number(t[..Digits(t)]) > 0 then -1 else Lex([], Key(t[Digits(t)..]))
  {
    hide Number, Lex;
    var m, key := Number(t[..Digits(t)]), Key(t[Digits(t)..]);
    assert Key(t) == [0, m] + key;
    assert [0, 0] == [0, 0] + [];
    LexNumbers(0, [], m, key);
  }

  lemma PolicyFragment(t: string)
    requires t != "" && Plain(t)
    ensures FragmentOrder("", t) == FragmentOrder("0", t) <==> !ZeroLike(t)
  {
    hide FragmentOrder, Key, Number;
    EmptyOrder(t);
    NonEmptyOrder("0", t);
    ZeroKey();
    var n := Digits(t);
    if n == 0 {
      ZeroText([0, 0], t);
    } else {
      ZeroNumber(t);
      NumberZero(t[..n]);
      if n == |t| {
        NoKey();
      } else {
        assert t[n..][0] == t[n];
        ZeroText([], t[n..]);
      }
    }
  }

  lemma ZeroKey()
    ensures Key("0") == [0, 0]
  {
    assert Digits("0") == 1 && "0"[1..] == "" && "0"[..1] == "0";
    assert Number("0") == 10 * Number("") + 0;
  }

  lemma NoKey()
    ensures Key("") == [] && Lex([], []) == 0
  {
  }

  lemma {:induction false} NumberZero(s: string)
    requires forall i :: 0 <= i < |s| ==> IsDigit(s[i])
    ensures Number(s) == 0 <==> forall i :: 0 <= i < |s| ==> s[i] == '0'
  {
    if s != "" {
      NumberZero(s[..|s| - 1]);
    }
  }

  lemma MissingRevisionExample()
    ensures VersionOrder("1.0", "1.0-0") == -1
  {
    var (v, w) := ("1.0", "1.0-0");
    assert IndexOf(v, ':') == |v| && IndexOf(w, ':') == |w|;
    assert Rest(v) == v && Rest(w) == w;
    DashMissing(v, 3);
    DashFound(w, 5, 3);
    assert Upstream(v) == "1.0" == Upstream(w) && Revision(v) == "" && Revision(w) == "0";
    FragmentAntisymmetric("1.0", "1.0");
    FragmentAntisymmetric("", "");
    EmptyOrder("0");
  }

  lemma FragmentAntisymmetric(s: string, t: string)
    ensures FragmentOrder(t, s) == -FragmentOrder(s, t) && -1 <= FragmentOrder(s, t) <= 1
  {
    LexAntisymmetric([Class(s)] + Key(s), [Class(t)] + Key(t));
  }

  lemma FragmentTransitive(s: string, t: string, u: string)
    ensures FragmentOrder(s, t) <= 0 && FragmentOrder(t, u) <= 0 ==>
      FragmentOrder(s, u) <= 0 && (FragmentOrder(s, u) == 0 ==> FragmentOrder(s, t) == 0 && FragmentOrder(t, u) == 0)
  {
    if FragmentOrder(s, t) <= 0 && FragmentOrder(t, u) <= 0 {
      LexTransitive([Class(s)] + Key(s), [Class(t)] + Key(t), [Class(u)] + Key(u));
    }
  }

  /** On two fragments that are not empty, the keys alone decide. */
  lemma NonEmptyOrder(s: string, t: string)
    requires s != "" && t != ""
    ensures FragmentOrder(s, t) == Lex(Key(s), Key(t))
  {
    assert Order(s[0]) == -1 <==> s[0] == '~';
    assert Key(s)[0] == -1 <==> Class(s) == 0;
    assert Key(t)[0] == -1 <==> Class(t) == 0;
    assert Key(s)[0] >= -1 && Key(t)[0] >= -1;
    LexTail(Class(s), Key(s), Key(t));
    if Class(s) != Class(t) {
      assert ([Class(s)] + Key(s))[0] != ([Class(t)] + Key(t))[0];
    }
  }

  lemma EmptyOrder(t: string)
    ensures FragmentOrder("", t) == (if t == "" then 0 else if t[0] == '~' then 1 else -1)
    ensures FragmentOrder(t, "") == (if t == "" then 0 else if t[0] == '~' then -1 else 1)
  {
    assert ([Class("")] + Key(""))[0] == 1;
    assert ([Class(t)] + Key(t))[0] == Class(t);
    LexEmpty();
    LexTail(1, [], []);
  }

  /* Digit runs, compared from the left after dropping leading zeros. */

  lemma NumberStep(s: string, i: nat, k: nat)
    requires i <= k < |s| && forall j :: i <= j <= k ==> IsDigit(s[j])
    ensures Number(s[i..k + 1]) == 10 * Number(s[i..k]) + DigitValue(s[k])
  {
    assert s[i..k + 1][..k - i] == s[i..k];
  }

  lemma {:induction false} NumberZeros(s: string, i: nat, k: nat, n: nat)
    requires i <= k <= n <= |s| && (forall j :: i <= j < k ==> s[j] == '0') && forall j :: i <= j < n ==> IsDigit(s[j])
    ensures Number(s[i..n]) == Number(s[k..n])
  {
    if n > k {
      NumberZeros(s, i, k, n - 1);
      NumberStep(s, i, n - 1);
      NumberStep(s, k, n - 1);
    } else if k > i {
      NumberZeros(s, i, k - 1, n - 1);
      assert s[i..k - 1] == s[i..n - 1];
      NumberStep(s, i, n - 1);
    }
  }

  lemma {:induction false} NumberGrows(s: string, i: nat, k: nat, n: nat)
    requires i <= k < n <= |s| && forall j :: i <= j < n ==> IsDigit(s[j])
    ensures Number(s[i..n]) >= 10 * Number(s[i..k]) + DigitValue(s[k])
  {
    if n == k + 1 {
      NumberStep(s, i, k);
    } else {
      NumberGrows(s, i, k, n - 1);
      NumberStep(s, i, n - 1);
    }
  }

  /** The digits from `i` to `k` start with a nonzero digit, and `p` is the power
      of ten with as many zeros as there are digits. */
  ghost predicate Scaled(s: string, i: nat, k: nat, p: nat) {
    && i <= k <= |s| && (forall j :: i <= j < k ==> IsDigit(s[j])) && p >= 1
    && Number(s[i..k]) < p && (k > i ==> 10 * Number(s[i..k]) >= p) && (k == i ==> p == 1)
  }

  lemma ScaledStep(s: string, i: nat, k: nat, p: nat)
    requires Scaled(s, i, k, p) && k < |s| && IsDigit(s[k]) && s[i] != '0'
    ensures Scaled(s, i, k + 1, 10 * p)
  {
    NumberStep(s, i, k);
  }

  /** A longer run is a larger number. */
  lemma LongerIsLarger(s: string, i: nat, k: nat, n: nat, t: string, j: nat, m: nat, p: nat)
    requires Scaled(s, i, k, p) && Scaled(t, j, m, p) && s[i..] != "" && s[i] != '0'
    requires k < n <= |s| && forall x :: i <= x < n ==> IsDigit(s[x])
    ensures Number(s[i..n]) > Number(t[j..m])
  {
    NumberGrows(s, i, k, n);
    if k == i {
      assert s[i..k] == "";
      assert DigitValue(s[k]) > 0;
    }
  }

  lemma LexNumbers(n: nat, x: seq<int>, m: nat, y: seq<int>)
    ensures Lex([0, n] + x, [0, m] + y) == if n < m then -1 else if n > m then 1 else Lex(x, y)
    ensures Lex([], [0, m] + y) == if m > 0 then -1 else Lex([], y)
    ensures Lex([0, n] + x, []) == if n > 0 then 1 else Lex(x, [])
  {
    assert [0, n] + x == [0] + ([n] + x) && [0, m] + y == [0] + ([m] + y);
    LexTail(0, [n] + x, [m] + y);
    LexZero([m] + y);
    LexZero([n] + x);
    LexZero(y);
    LexZero(x);
    LexTail(n, x, y);
    assert ([n] + x)[0] == n && ([m] + y)[0] == m;
  }

  /** The key of a fragment, with its first number split off if it begins with one. */
  lemma KeyFront(s: string)
    ensures var k := Digits(s);
      if k > 0 then Key(s) == [0, Number(s[..k])] + Key(s[k..]) else s[k..] == s && Number(s[..k]) == 0
  {
  }

  /** What a pair of digit runs contributes, either of which may be missing at the end. */
  lemma NumberStage(s: string, t: string)
    requires s == "" || t == "" || (IsDigit(s[0]) && IsDigit(t[0]))
    ensures var (n, m) := (Number(s[..Digits(s)]), Number(t[..Digits(t)]));
      Lex(Key(s), Key(t)) == if n < m then -1 else if n > m then 1 else Lex(Key(s[Digits(s)..]), Key(t[Digits(t)..]))
  {
    hide Lex, Number;
    KeyFront(s);
    KeyFront(t);
    var (k, l) := (Digits(s), Digits(t));
    LexNumbers(Number(s[..k]), Key(s[k..]), Number(t[..l]), Key(t[l..]));
  }

  /** What a pair of characters contributes that are not both digits. */
  lemma TextStage(s: string, t: string)
    requires s != "" && t != "" && (!IsDigit(s[0]) || !IsDigit(t[0])) && Plain(s) && Plain(t)
    ensures Lex(Key(s), Key(t)) ==
      if Order(s[0]) < Order(t[0]) then -1 else if Order(s[0]) > Order(t[0]) then 1
      else Lex(Key(s[1..]), Key(t[1..]))
    ensures Order(s[0]) == Order(t[0]) ==> !IsDigit(s[0]) && !IsDigit(t[0])
  {
    assert IsDigit(s[0]) <==> Order(s[0]) == 0;
    assert IsDigit(t[0]) <==> Order(t[0]) == 0;
    assert Key(s)[0] == Order(s[0]) && Key(t)[0] == Order(t[0]);
    if Order(s[0]) == Order(t[0]) {
      LexTail(Order(s[0]), Key(s[1..]), Key(t[1..]));
    }
  }

  /** What is left when one side is used up and the other goes on with text. */
  lemma RestStage(s: string)
    requires s != "" && !IsDigit(s[0]) && Plain(s)
    ensures Lex([], Key(s)) == (if s[0] == '~' then 1 else -1)
    ensures Lex(Key(s), []) == (if s[0] == '~' then -1 else 1)
  {
    assert Key(s)[0] == Order(s[0]) != 0;
  }

  lemma RunSlice(s: string, i: nat, n: nat, e: nat)
    requires i <= n <= e <= |s| && (forall j :: i <= j < n ==> IsDigit(s[j])) && (n < e ==> !IsDigit(s[n]))
    ensures Digits(s[i..e]) == n - i && s[i..e][..n - i] == s[i..n] && s[i..e][n - i..] == s[n..e]
  {
  }

  /** A text in memory: `end` is the position after its last character, where the
      next character, which is read too, is no digit. */
  predicate Ends(s: string, end: int) {
    0 <= end < |s| && !IsDigit(s[end])
  }

  /** The position behind some zeros; the text ends with something that is no digit. */
  method SkipZeros(a: string, start: nat, end: nat) returns (p: nat)
    requires Ends(a, end) && start <= end
    ensures start <= p <= end && a[p] != '0' && forall j :: start <= j < p ==> a[j] == '0'
  {
    p := start;
    while a[p] == '0'
      invariant start <= p <= end && forall j :: start <= j < p ==> a[j] == '0'
      decreases end - p
    {
      p := p + 1;
    }
  }

  /** Compare the digit runs at two positions and move past them if they are equal. */
  method CompareNumbers(a: string, lhs0: nat, aEnd: nat, b: string, rhs0: nat, bEnd: nat) returns (r: int, lhs: nat,
                        rhs: nat)
    requires Ends(a, aEnd) && lhs0 <= aEnd && Ends(b, bEnd) && rhs0 <= bEnd
    ensures var (s, t) := (a[lhs0..aEnd], b[rhs0..bEnd]);
      var (n, m) := (Number(s[..Digits(s)]), Number(t[..Digits(t)]));
      && r == (if n < m then -1 else if n > m then 1 else 0)
      && (r == 0 ==> lhs == lhs0 + Digits(s) && rhs == rhs0 + Digits(t))
    ensures lhs0 <= lhs <= aEnd && rhs0 <= rhs <= bEnd
  {
    hide Digits, Number;
    lhs := SkipZeros(a, lhs0, aEnd);
    rhs := SkipZeros(b, rhs0, bEnd);
    ghost var (i, j, p: nat) := (lhs, rhs, 1);
    ScaledStart(a, i);
    ScaledStart(b, j);
    var firstDiff := 0;
    while lhs != aEnd && IsDigit(a[lhs]) && rhs != bEnd && IsDigit(b[rhs])
      invariant i <= lhs <= aEnd && j <= rhs <= bEnd
      invariant Scaled(a, i, lhs, p) && Scaled(b, j, rhs, p)
      invariant firstDiff < 0 <==> Number(a[i..lhs]) < Number(b[j..rhs])
      invariant firstDiff > 0 <==> Number(a[i..lhs]) > Number(b[j..rhs])
    {
      if firstDiff == 0 {
        firstDiff := a[lhs] as int - b[rhs] as int;
      }
      NumberStep(a, i, lhs);
      NumberStep(b, j, rhs);
      ScaledStep(a, i, lhs, p);
      ScaledStep(b, j, rhs, p);
      lhs, rhs, p := lhs + 1, rhs + 1, 10 * p;
    }
    ghost var n, m := RunEnd(a, lhs, aEnd), RunEnd(b, rhs, bEnd);
    WholeRun(a, lhs0, i, n, aEnd);
    WholeRun(b, rhs0, j, m, bEnd);
    if IsDigit(a[lhs]) {
      LongerIsLarger(a, i, lhs, n, b, j, rhs, p);
      return 1, lhs, rhs;
    }
    if IsDigit(b[rhs]) {
      LongerIsLarger(b, j, rhs, m, a, i, lhs, p);
      return -1, lhs, rhs;
    }
    if firstDiff != 0 {
      return if firstDiff < 0 then -1 else 1, lhs, rhs;
    }
    return 0, lhs, rhs;
  }

  lemma ScaledStart(s: string, i: nat)
    requires i <= |s|
    ensures Scaled(s, i, i, 1) && Number(s[i..i]) == 0
  {
  }

  /** Where the digit run at `i` ends. */
  ghost function RunEnd(s: string, i: nat, e: nat): (n: nat)
    requires i <= e <= |s|
    ensures i <= n <= e && (forall j :: i <= j < n ==> IsDigit(s[j])) && (n < e ==> !IsDigit(s[n]))
  {
    i + Digits(s[i..e])
  }

  lemma WholeRun(s: string, start: nat, i: nat, n: nat, e: nat)
    requires start <= i <= n <= e <= |s| && (forall j :: start <= j < i ==> s[j] == '0')
    requires (forall j :: i <= j < n ==> IsDigit(s[j])) && (n < e ==> !IsDigit(s[n]))
    ensures var r := s[start..e]; Digits(r) == n - start && Number(r[..Digits(r)]) == Number(s[i..n])
  {
    RunSlice(s, start, n, e);
    NumberZeros(s, start, i, n);
  }

  function Slice(s: string, i: int, e: int): string
    requires i < e ==> 0 <= i && e <= |s|
  {
    if i < e then s[i..e] else ""
  }

  /** Compare two texts character by character, until both go on with a number. */
  method CompareTextPart(a: string, aStart: nat, lhs0: nat, aEnd: nat, b: string, bStart: nat, rhs0: nat, bEnd: nat)
    returns (r: int, lhs: nat, rhs: nat)
    requires Ends(a, aEnd) && aStart <= lhs0 <= aEnd && Plain(a[aStart..aEnd])
    requires Ends(b, bEnd) && bStart <= rhs0 <= bEnd && Plain(b[bStart..bEnd])
    ensures lhs0 <= lhs <= aEnd && rhs0 <= rhs <= bEnd && (lhs == lhs0 ==> rhs == rhs0)
    ensures Lex(Key(a[lhs0..aEnd]), Key(b[rhs0..bEnd]))
            == if r != 0 then r else Lex(Key(a[lhs..aEnd]), Key(b[rhs..bEnd]))
    ensures r == 0 ==> lhs == aEnd || rhs == bEnd || (IsDigit(a[lhs]) && IsDigit(b[rhs]))
  {
    hide Lex, Key;
    lhs, rhs := lhs0, rhs0;
    while lhs != aEnd && rhs != bEnd && (!IsDigit(a[lhs]) || !IsDigit(b[rhs]))
      invariant lhs0 <= lhs <= aEnd && rhs0 <= rhs <= bEnd && (lhs == lhs0 ==> rhs == rhs0)
      invariant Lex(Key(a[lhs0..aEnd]), Key(b[rhs0..bEnd])) == Lex(Key(a[lhs..aEnd]), Key(b[rhs..bEnd]))
      decreases aEnd - lhs
    {
      TextStep(a, lhs, aEnd, aStart);
      TextStep(b, rhs, bEnd, bStart);
      TextStage(a[lhs..aEnd], b[rhs..bEnd]);
      var vc, rc := Order(a[lhs]), Order(b[rhs]);
      if vc > rc {
        return 1, lhs, rhs;
      } else if vc < rc {
        return -1, lhs, rhs;
      }
      lhs, rhs := lhs + 1, rhs + 1;
    }
    r := 0;
  }

  /** Compare two fragments given by positions. An empty one may start behind its end. */
  method CompareFragment(a: string, aStart: int, aEnd: int, b: string, bStart: int, bEnd: int) returns (r: int)
    requires aStart < aEnd ==> 0 <= aStart && Ends(a, aEnd)
    requires bStart < bEnd ==> 0 <= bStart && Ends(b, bEnd)
    requires Plain(Slice(a, aStart, aEnd)) && Plain(Slice(b, bStart, bEnd))
    ensures r == FragmentOrder(Slice(a, aStart, aEnd), Slice(b, bStart, bEnd))
  {
    hide FragmentOrder, Lex, Key, Digits, Number;
    ghost var (s, t) := (Slice(a, aStart, aEnd), Slice(b, bStart, bEnd));
    EmptyOrder(s);
    EmptyOrder(t);
    if aStart >= aEnd && bStart >= bEnd {
      return 0;
    }
    if aStart >= aEnd {
      return if b[bStart] == '~' then 1 else -1;
    }
    if bStart >= bEnd {
      return if a[aStart] == '~' then -1 else 1;
    }
    NonEmptyOrder(s, t);
    r := CompareParts(a, aStart, aEnd, b, bStart, bEnd);
  }

  /** Compare two fragments that are not empty, text and numbers in turn. */
  method CompareParts(a: string, aStart: nat, aEnd: nat, b: string, bStart: nat, bEnd: nat) returns (r: int)
    requires Ends(a, aEnd) && aStart < aEnd && Plain(a[aStart..aEnd])
    requires Ends(b, bEnd) && bStart < bEnd && Plain(b[bStart..bEnd])
    ensures r == Lex(Key(a[aStart..aEnd]), Key(b[bStart..bEnd]))
  {
    hide Lex, Key, Digits, Number, Plain;
    var lhs, rhs := aStart, bStart;
    ghost var order := Lex(Key(a[aStart..aEnd]), Key(b[bStart..bEnd]));
    while lhs != aEnd && rhs != bEnd
      invariant aStart <= lhs <= aEnd && bStart <= rhs <= bEnd
      invariant order == Lex(Key(a[lhs..aEnd]), Key(b[rhs..bEnd]))
      invariant lhs == aEnd && rhs < bEnd ==> !IsDigit(b[rhs])
      invariant rhs == bEnd && lhs < aEnd ==> !IsDigit(a[lhs])
      decreases aEnd - lhs + (bEnd - rhs)
    {
      var text;
      text, lhs, rhs := CompareTextPart(a, aStart, lhs, aEnd, b, bStart, rhs, bEnd);
      if text != 0 {
        return text;
      }
      assert lhs < aEnd ==> a[lhs..aEnd][0] == a[lhs];
      assert rhs < bEnd ==> b[rhs..bEnd][0] == b[rhs];
      NumberStage(a[lhs..aEnd], b[rhs..bEnd]);
      var cmp, lhs1, rhs1 := CompareNumbers(a, lhs, aEnd, b, rhs, bEnd);
      if cmp != 0 {
        return cmp;
      }
      AfterRun(a, lhs, aEnd);
      AfterRun(b, rhs, bEnd);
      lhs, rhs := lhs1, rhs1;
    }
    r := CompareRest(a, aStart, lhs, aEnd, b, bStart, rhs, bEnd);
  }

  /** One of the fragments is used up: what is left of the other decides. */
  method CompareRest(a: string, aStart: nat, lhs: nat, aEnd: nat, b: string, bStart: nat, rhs: nat, bEnd: nat)
    returns (r: int)
    requires Ends(a, aEnd) && aStart <= lhs <= aEnd && Plain(a[aStart..aEnd])
    requires Ends(b, bEnd) && bStart <= rhs <= bEnd && Plain(b[bStart..bEnd])
    requires lhs == aEnd || rhs == bEnd
    requires lhs == aEnd && rhs < bEnd ==> !IsDigit(b[rhs])
    requires rhs == bEnd && lhs < aEnd ==> !IsDigit(a[lhs])
    ensures r == Lex(Key(a[lhs..aEnd]), Key(b[rhs..bEnd]))
  {
    hide Lex, Key;
    if lhs == aEnd && rhs == bEnd {
      LexKeysEmpty(a[lhs..aEnd], b[rhs..bEnd]);
      return 0;
    }
    if lhs == aEnd {
      TextStep(b, rhs, bEnd, bStart);
      RestStage(b[rhs..bEnd]);
      KeyEmpty(a[lhs..aEnd]);
      return if b[rhs] == '~' then 1 else -1;
    }
    TextStep(a, lhs, aEnd, aStart);
    RestStage(a[lhs..aEnd]);
    KeyEmpty(b[rhs..bEnd]);
    return if a[lhs] == '~' then -1 else 1;
  }

  lemma TextStep(a: string, i: nat, e: nat, start: nat)
    requires start <= i < e <= |a| && Plain(a[start..e])
    ensures a[i..e][1..] == a[i + 1..e] && a[i..e][0] == a[i] && Plain(a[i..e]) && a[i..e] != ""
  {
    assert a[i..e] == a[start..e][i - start..];
  }

  /** After a run the position is at the end or at text, and a run that starts at a digit is not empty. */
  lemma AfterRun(s: string, i: nat, e: nat)
    requires i <= e <= |s|
    ensures var n := i + Digits(s[i..e]);
      n <= e && (n < e ==> !IsDigit(s[n])) && (i < e && IsDigit(s[i]) ==> n > i) && s[i..e][n - i..] == s[n..e]
  {
  }

  lemma KeyEmpty(s: string)
    requires s == ""
    ensures Key(s) == []
  {
  }

  lemma LexKeysEmpty(s: string, t: string)
    requires s == "" && t == ""
    ensures Lex(Key(s), Key(t)) == 0
  {
    LexEmpty();
  }

  /** Find the epoch of a version: it is between `start` and `colon`. */
  method FindEpoch(a: string, end: nat) returns (start: nat, colon: nat)
    requires end < |a|
    ensures start <= colon <= end && Slice(a, start, colon) == Epoch(a[..end])
    ensures start < colon ==> a[colon] == ':'
    ensures var rest := if colon != start then colon + 1 else colon;
      rest <= end && a[rest..end] == Rest(a[..end])
  {
    ghost var v := a[..end];
    colon := 0;
    while colon != end && a[colon] != ':'
      invariant colon <= end && forall i :: 0 <= i < colon ==> a[i] != ':'
    {
      colon := colon + 1;
    }
    IndexUnique(v, ':', colon);
    if colon == end {
      colon := 0;
    }
    start := 0;
    if colon != 0 {
      start := StripEpoch(a, colon);
      assert v[..colon] == a[..colon];
      if start == colon {
        start := start + 1;
        colon := colon + 1;
      }
    }
  }

  /** Leading zeros of an epoch do not count. */
  method StripEpoch(a: string, colon: nat) returns (start: nat)
    requires colon < |a| && a[colon] == ':'
    ensures start <= colon && a[start..colon] == StripZeros(a[..colon])
  {
    start := 0;
    assert a[0..colon] == a[..colon];
    while a[start] == '0'
      invariant start <= colon && StripZeros(a[start..colon]) == StripZeros(a[..colon])
      decreases colon - start
    {
      assert a[start..colon][1..] == a[start + 1..colon];
      start := start + 1;
    }
  }

  lemma IndexUnique(s: string, c: char, n: nat)
    requires n <= |s| && (forall i :: 0 <= i < n ==> s[i] != c) && (n < |s| ==> s[n] == c)
    ensures IndexOf(s, c) == n
  {
  }

  lemma {:induction false} DashFound(s: string, n: nat, r: nat)
    requires n <= |s| && (0 < r < n && s[r] == '-') && forall i :: r < i < n ==> s[i] != '-'
    ensures LastDash(s, n) == r
  {
    if n - 1 != r {
      DashFound(s, n - 1, r);
    }
  }

  lemma {:induction false} DashMissing(s: string, n: nat)
    requires n <= |s| && forall i :: 0 < i < n ==> s[i] != '-'
    ensures LastDash(s, n) == |s|
  {
    if n > 1 {
      DashMissing(s, n - 1);
    }
  }

  /** Find the end of the upstream part that starts at `start`. */
  method FindDash(a: string, start: nat, end: nat) returns (dash: int)
    requires Ends(a, end) && start <= end
    ensures start < dash ==> Ends(a, dash) && dash <= end
    ensures dash >= start - 1 && Slice(a, start, dash) == Upstream(a[start..end])
    ensures Slice(a, if dash != start then dash + 1 else dash, end) == Revision(a[start..end])
  {
    ghost var rest := a[start..end];
    dash := end - 1;
    while dash > start && a[dash] != '-'
      invariant start - 1 <= dash < end && (dash == start - 1 ==> start == end)
      invariant forall i :: dash < i < end && start <= i ==> a[i] != '-'
    {
      dash := dash - 1;
    }
    if dash > start {
      DashFound(rest, |rest|, dash - start);
      assert rest[dash - start] == a[dash];
    } else {
      DashMissing(rest, |rest|);
    }
    if dash == start {
      dash := end;
    }
  }

  lemma PlainSlice(s: string, n: nat, i: int, e: int)
    requires n <= |s| && Plain(s[..n]) && (i < e ==> 0 <= i && e <= n)
    ensures Plain(Slice(s, i, e))
  {
    forall k | 0 <= k < |Slice(s, i, e)| ensures 0 < Slice(s, i, e)[k] as int < 128 {
      assert Slice(s, i, e)[k] == s[..n][i + k];
    }
  }

  /** Compare two versions, given as the first characters of two buffers. */
  method CompareVersions(a: string, aEnd: nat, b: string, bEnd: nat) returns (r: int)
    requires Ends(a, aEnd) && Plain(a[..aEnd]) && Ends(b, bEnd) && Plain(b[..bEnd])
    ensures r == VersionOrder(a[..aEnd], b[..bEnd])
  {
    hide FragmentOrder, Epoch, Rest, Upstream, Revision, Plain, Slice;
    var aStart, lhs := FindEpoch(a, aEnd);
    var bStart, rhs := FindEpoch(b, bEnd);
    PlainSlice(a, aEnd, aStart, lhs);
    PlainSlice(b, bEnd, bStart, rhs);
    r := CompareFragment(a, aStart, lhs, b, bStart, rhs);
    if r != 0 {
      return;
    }
    if lhs != aStart {
      lhs := lhs + 1;
    }
    if rhs != bStart {
      rhs := rhs + 1;
    }
    var dlhs := FindDash(a, lhs, aEnd);
    var drhs := FindDash(b, rhs, bEnd);
    PlainSlice(a, aEnd, lhs, dlhs);
    PlainSlice(b, bEnd, rhs, drhs);
    r := CompareFragment(a, lhs, dlhs, b, rhs, drhs);
    if r != 0 {
      return;
    }
    if dlhs != lhs {
      dlhs := dlhs + 1;
    }
    if drhs != rhs {
      drhs := drhs + 1;
    }
    PlainSlice(a, aEnd, dlhs, aEnd);
    PlainSlice(b, bEnd, drhs, bEnd);
    r := CompareFragment(a, dlhs, aEnd, b, drhs, bEnd);
  }

  /* Version relations. */

  datatype Op = Any | Eq | Less | LessEq | Greater | GreaterEq

  /** The relation holds between a version and the one it is compared to. */
  predicate Holds(op: Op, v: string, w: string) {
    var r := VersionOrder(v, w);
    match op
    case Any => true
    case Eq => r == 0
    case Less => r < 0
    case LessEq => r <= 0
    case Greater => r > 0
    case GreaterEq => r >= 0
  }

  /** For any two versions exactly one of less, equal and greater holds, and the
      inclusive relations are what their names say. */
  lemma OpsPartition(v: string, w: string)
    ensures Holds(LessEq, v, w) <==> Holds(Less, v, w) || Holds(Eq, v, w)
    ensures Holds(GreaterEq, v, w) <==> !Holds(Less, v, w)
    ensures Holds(Greater, v, w) <==> Holds(Less, w, v)
    ensures Holds(Eq, v, w) <==> Holds(LessEq, v, w) && Holds(LessEq, w, v)
  {
    VersionOrderTotal(v, w);
  }

  /** Stored version text, with the character that follows it in memory. */
  datatype RawText = Text(bytes: string, len: nat)

  type Text = t: RawText | Ends(t.bytes, t.len) && Plain(t.bytes[..t.len]) witness Text("\0", 0)

  function Chars(t: Text): string {
    t.bytes[..t.len]
  }

  /** A package may lack a version. Without operator any version will do. */
  method CheckVersions(a: Option<Text>, op: Op, b: Text) returns (holds: bool)
    requires op == Any || a.Some?
    ensures holds <==> a.Some? && Holds(op, Chars(a.value), Chars(b))
    ensures op.Any? ==> (holds <==> a.Some?)
    ensures op.Eq? ==> (holds <==> VersionOrder(Chars(a.value), Chars(b)) == 0)
    ensures op.Less? ==> (holds <==> VersionOrder(Chars(a.value), Chars(b)) < 0)
    ensures op.LessEq? ==> (holds <==> VersionOrder(Chars(a.value), Chars(b)) <= 0)
    ensures op.Greater? ==> (holds <==> VersionOrder(Chars(a.value), Chars(b)) > 0)
    ensures op.GreaterEq? ==> (holds <==> VersionOrder(Chars(a.value), Chars(b)) >= 0)
  {
    if op == Any {
      return a.Some?;
    }
    var r := CompareVersions(a.value.bytes, a.value.len, b.bytes, b.len);
    match op {
      case Eq => holds := r == 0;
      case Less => holds := r < 0;
      case LessEq => holds := r <= 0;
      case Greater => holds := r > 0;
      case _ => holds := r >= 0;
    }
  }

  /* The best version on offer. */

  datatype Origin = Origin(name: string, versions: seq<Text>)

  /** `best` is the first of the greatest accepted versions. */
  ghost predicate IsBest(offers: seq<Text>, accept: Text -> bool, best: Option<Text>) {
    match best
    case None => forall i :: 0 <= i < |offers| ==> !accept(offers[i])
    case Some(v) => exists i :: 0 <= i < |offers| && IsBestAt(offers, accept, i) && offers[i] == v
  }

  ghost predicate IsBestAt(offers: seq<Text>, accept: Text -> bool, i: nat) {
    && i < |offers| && accept(offers[i])
    && forall j :: 0 <= j < |offers| && accept(offers[j]) ==>
      && VersionOrder(Chars(offers[j]), Chars(offers[i])) <= 0
      && (j < i ==> VersionOrder(Chars(offers[j]), Chars(offers[i])) < 0)
  }

  function AllOffers(origins: seq<Origin>): seq<Text> {
    if origins == [] then [] else AllOffers(origins[..|origins| - 1]) + origins[|origins| - 1].versions
  }

  /** What is on offer: everything, or only what comes from the pinned origin. */
  function Offers(pinned: Option<string>, origins: seq<Origin>): seq<Text> {
    match pinned
    case None => AllOffers(origins)
    case Some(name) => var i := Find(origins, name); if i < |origins| then origins[i].versions else []
  }

  function Find(origins: seq<Origin>, name: string): (i: nat)
    ensures i <= |origins| && (i < |origins| ==> origins[i].name == name)
    ensures forall j :: 0 <= j < i ==> origins[j].name != name
  {
    if origins == [] || origins[0].name == name then 0 else 1 + Find(origins[1..], name)
  }

  lemma BestStep(offers: seq<Text>, accept: Text -> bool, best: Option<Text>, v: Text)
    requires IsBest(offers, accept, best)
    ensures IsBest(offers + [v], accept,
                   if accept(v) && (best.None? || VersionOrder(Chars(v), Chars(best.value)) > 0) then Some(v) else best)
  {
    hide VersionOrder, Ends, Plain;
    var all, n := offers + [v], |offers|;
    assert all[n] == v;
    VersionOrderTotal(Chars(v), Chars(v));
    if best.Some? {
      var i :| 0 <= i < n && IsBestAt(offers, accept, i) && offers[i] == best.value;
      VersionOrderTotal(Chars(v), Chars(offers[i]));
      if accept(v) && VersionOrder(Chars(v), Chars(offers[i])) > 0 {
        forall j | 0 <= j < n && accept(all[j]) ensures VersionOrder(Chars(all[j]), Chars(v)) < 0 {
          VersionOrderTransitive(Chars(all[j]), Chars(offers[i]), Chars(v));
          VersionOrderTotal(Chars(all[j]), Chars(v));
        }
        assert IsBestAt(all, accept, n);
      } else {
        assert IsBestAt(all, accept, i);
      }
    } else if accept(v) {
      assert IsBestAt(all, accept, n);
    }
  }

  method CheckOrigin(versions: seq<Text>, accept: Text -> bool, best0: Option<Text>,
                     ghost seen: seq<Text>) returns (best: Option<Text>)
    requires IsBest(seen, accept, best0)
    ensures IsBest(seen + versions, accept, best)
  {
    hide VersionOrder, IsBest, IsBestAt, Ends, Plain;
    best := best0;
    assert seen + versions[..0] == seen;
    for i := 0 to |versions|
      invariant IsBest(seen + versions[..i], accept, best)
    {
      var v := versions[i];
      BestStep(seen + versions[..i], accept, best, v);
      assert seen + versions[..i] + [v] == seen + versions[..i + 1];
      if !accept(v) {
        continue;
      }
      if best.None? {
        best := Some(v);
      } else {
        var r := CompareTexts(v, best.value);
        if r > 0 {
          best := Some(v);
        }
      }
    }
    assert versions[..|versions|] == versions;
  }

  method CompareTexts(a: Text, b: Text) returns (r: int)
    ensures r == VersionOrder(Chars(a), Chars(b))
  {
    r := CompareVersions(a.bytes, a.len, b.bytes, b.len);
  }

  method GetBestVersion(pinned: Option<string>, origins: seq<Origin>, accept: Text -> bool) returns (best: Option<Text>)
    ensures IsBest(Offers(pinned, origins), accept, best)
  {
    hide IsBestAt, Ends, Plain;
    best := None;
    if pinned.Some? {
      var i := Find(origins, pinned.value);
      if i < |origins| {
        best := CheckOrigin(origins[i].versions, accept, best, []);
        assert [] + origins[i].versions == origins[i].versions;
      }
    } else {
      for i := 0 to |origins|
        invariant IsBest(AllOffers(origins[..i]), accept, best)
      {
        assert origins[..i + 1][..i] == origins[..i];
        best := CheckOrigin(origins[i].versions, accept, best, AllOffers(origins[..i]));
      }
      assert origins[..|origins|] == origins;
    }
  }
}
