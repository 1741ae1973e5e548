/** The order of versions, said of their characters: where two texts differ for the first time,
    what comes there decides. */
module VersionLaws {
  import opened Basics
  import Versions

  predicate AllDigits(s: string) {
    forall i :: 0 <= i < |s| ==> '0' <= s[i] <= '9'
  }

  predicate AllZeros(s: string) {
    forall i :: 0 <= i < |s| ==> s[i] == '0'
  }

  /** The text goes on with something that is no digit, or ends. */
  predicate NoDigitFirst(s: string) {
    s == "" || !('0' <= s[0] <= '9')
  }

  predicate NoDigitLast(s: string) {
    s == "" || !('0' <= s[|s| - 1] <= '9')
  }

  /** Tildes come first, then the end of the text and digits, then letters, then all else. */
  function Rank(s: string): int {
    if s == "" then 1
    else if s[0] == '~' then 0
    else if '0' <= s[0] <= '9' then 1
    else if 'a' <= s[0] <= 'z' || 'A' <= s[0] <= 'Z' then 2
    else 3
  }

  /** Letters, and other characters, among themselves by their codes. */
  predicate Precedes(s: string, t: string) {
    Rank(s) < Rank(t) || (Rank(s) == Rank(t) >= 2 && s[0] < t[0])
  }

  /* Keys of texts. */

  /** What two texts have in common at the front does not matter, if no number reaches beyond it. */
  lemma {:induction false} PrefixDrops(p: string, s: string, t: string)
    requires NoDigitLast(p) || (NoDigitFirst(s) && NoDigitFirst(t))
    ensures Versions.Lex(Versions.Key(p + s), Versions.Key(p + t)) == Versions.Lex(Versions.Key(s), Versions.Key(t))
  {
    if p == "" {
      assert p + s == s && p + t == t;
    } else {
      var k := Versions.Digits(p);
      var q := if k == 0 then p[1..] else p[k..];
      KeyFirst(p, s);
      KeyFirst(p, t);
      PrefixDrops(q, s, t);
      hide Versions.Lex, Versions.Key;
      if k == 0 {
        Versions.LexTail(Versions.Order(p[0]), Versions.Key(q + s), Versions.Key(q + t));
      } else {
        var n := Versions.Number(p[..k]);
        Versions.LexNumbers(n, Versions.Key(q + s), n, Versions.Key(q + t));
      }
    }
  }

  /** The first character or number of a text that goes on with `s`. */
  lemma KeyFirst(p: string, s: string)
    requires p != "" && (NoDigitLast(p) || NoDigitFirst(s))
    ensures var k := Versions.Digits(p);
      Versions.Key(p + s) == if k == 0 then [Versions.Order(p[0])] + Versions.Key(p[1..] + s)
                             else [0, Versions.Number(p[..k])] + Versions.Key(p[k..] + s)
  {
    hide Versions.Number, Versions.Order;
    var k := Versions.Digits(p);
    if k == 0 {
      assert (p + s)[1..] == p[1..] + s;
    } else {
      RunLength(p + s, k);
      assert (p + s)[..k] == p[..k] && (p + s)[k..] == p[k..] + s;
    }
  }

  lemma RunLength(s: string, k: nat)
    requires k <= |s| && AllDigits(s[..k]) && (k < |s| ==> !('0' <= s[k] <= '9'))
    ensures Versions.Digits(s) == k
  {
    assert forall i :: 0 <= i < k ==> s[i] == s[..k][i];
  }

  /* Text. */

  /** Where two texts differ for the first time, and not in a number, the characters decide, or the
      end of one of the texts. */
  lemma TextDecides(p: string, s: string, t: string)
    requires Versions.Plain(p + s) && Versions.Plain(p + t)
    requires NoDigitLast(p) || (NoDigitFirst(s) && NoDigitFirst(t))
    requires Rank(s) != 1 || Rank(t) != 1
    requires s != "" && t != "" ==> s[0] != t[0]
    ensures Versions.FragmentOrder(p + s, p + t) == if Precedes(s, t) then -1 else 1
    ensures Precedes(s, t) || Precedes(t, s)
  {
    PrefixDrops(p, s, t);
    PlainFirst(p, s);
    PlainFirst(p, t);
    Versions.EmptyOrder(p + s);
    Versions.EmptyOrder(p + t);
    FirstDecides(s, t);
    if p + s == "" {
      assert p + t == t;
    } else if p + t == "" {
      assert p + s == s;
    } else {
      Versions.NonEmptyOrder(p + s, p + t);
    }
  }

  lemma PlainFirst(p: string, s: string)
    requires Versions.Plain(p + s)
    ensures s != "" ==> 0 < s[0] as int < 128
  {
    assert s != "" ==> (p + s)[|p|] == s[0];
  }

  lemma FirstDecides(s: string, t: string)
    requires (s != "" ==> 0 < s[0] as int < 128) && (t != "" ==> 0 < t[0] as int < 128)
    requires (Rank(s) != 1 || Rank(t) != 1) && (s != "" && t != "" ==> s[0] != t[0])
    ensures Versions.Lex(Versions.Key(s), Versions.Key(t)) == if Precedes(s, t) then -1 else 1
    ensures Precedes(s, t) || Precedes(t, s)
  {
    Heads(s);
    Heads(t);
  }

  lemma Heads(s: string)
    ensures s == "" <==> Versions.Key(s) == []
    ensures s != "" ==> Versions.Key(s)[0] == if '0' <= s[0] <= '9' then 0 else Versions.Order(s[0])
  {
    hide Versions.Order, Versions.Number;
  }

  /* Numbers. */

  function Pow10(n: nat): nat {
    if n == 0 then 1 else 10 * Pow10(n - 1)
  }

  lemma {:induction false} NumberSize(d: string)
    requires AllDigits(d)
    ensures Versions.Number(d) < Pow10(|d|)
    ensures d != "" && d[0] != '0' ==> Versions.Number(d) >= Pow10(|d| - 1)
  {
    if d != "" {
      NumberSize(d[..|d| - 1]);
    }
  }

  lemma {:induction false} PowGrows(m: nat, n: nat)
    requires m <= n
    ensures Pow10(m) <= Pow10(n)
  {
    if m < n {
      PowGrows(m, n - 1);
    }
  }

  lemma {:induction false} DigitDecides(d: string, e: string, i: nat)
    requires AllDigits(d) && AllDigits(e) && |d| == |e| && i < |d| && d[..i] == e[..i] && d[i] < e[i]
    ensures Versions.Number(d) < Versions.Number(e)
  {
    var n := |d| - 1;
    if i < n {
      assert d[..n][..i] == d[..i] && e[..n][..i] == e[..i];
      DigitDecides(d[..n], e[..n], i);
    } else {
      assert d[..n] == e[..n];
    }
  }

  lemma ZerosDrop(z: string, d: string)
    requires AllZeros(z) && AllDigits(d)
    ensures AllDigits(z + d) && Versions.Number(z + d) == Versions.Number(d)
  {
    var s := z + d;
    Versions.NumberZeros(s, 0, |z|, |s|);
    assert s[0..|s|] == s && s[|z|..|s|] == d;
  }

  /** The smaller of two digit runs without leading zeros: it is shorter, or the first difference
      decides. */
  ghost predicate Smaller(d: string, e: string) {
    || |d| < |e|
    || (|d| == |e| && exists i :: 0 <= i < |d| && d[..i] == e[..i] && d[i] < e[i])
  }

  lemma SmallerIs(d: string, e: string)
    requires AllDigits(d) && AllDigits(e) && (e != "" ==> e[0] != '0') && Smaller(d, e)
    ensures Versions.Number(d) < Versions.Number(e)
  {
    if |d| < |e| {
      NumberSize(d);
      NumberSize(e);
      PowGrows(|d|, |e| - 1);
    } else {
      var i :| 0 <= i < |d| && d[..i] == e[..i] && d[i] < e[i];
      DigitDecides(d, e, i);
    }
  }

  lemma NumberFront(z: string, d: string, s: string)
    requires AllZeros(z) && AllDigits(d) && z + d != "" && NoDigitFirst(s)
    ensures Versions.Key(z + d + s) == [0, Versions.Number(d)] + Versions.Key(s)
  {
    hide Versions.Number;
    var r := z + d;
    ZerosDrop(z, d);
    assert (r + s)[..|r|] == r && (r + s)[|r|..] == s;
    RunLength(r + s, |r|);
  }

  /** Where two texts go on with numbers, the smaller number comes first, whatever follows; leading
      zeros do not count. */
  lemma NumbersDecide(p: string, z: string, d: string, s: string, y: string, e: string, t: string)
    requires NoDigitLast(p) && NoDigitFirst(s) && NoDigitFirst(t)
    requires AllZeros(z) && AllDigits(d) && z + d != "" && AllZeros(y) && AllDigits(e) && y + e != ""
    requires (e != "" ==> e[0] != '0') && Smaller(d, e)
    ensures Versions.FragmentOrder(p + (z + d + s), p + (y + e + t)) == -1
  {
    hide Versions.Lex, Versions.Key, Versions.Number, Versions.FragmentOrder;
    PrefixDrops(p, z + d + s, y + e + t);
    NumberFront(z, d, s);
    NumberFront(y, e, t);
    SmallerIs(d, e);
    Versions.LexNumbers(Versions.Number(d), Versions.Key(s), Versions.Number(e), Versions.Key(t));
    Versions.NonEmptyOrder(p + (z + d + s), p + (y + e + t));
  }

  /** Leading zeros of a number do not count. */
  lemma ZerosIgnored(p: string, z: string, d: string, s: string)
    requires NoDigitLast(p) && NoDigitFirst(s) && AllZeros(z) && AllDigits(d) && d != ""
    ensures Versions.FragmentOrder(p + (z + d + s), p + (d + s)) == 0
  {
    hide Versions.Lex, Versions.Key, Versions.Number, Versions.FragmentOrder;
    PrefixDrops(p, z + d + s, d + s);
    NumberFront(z, d, s);
    NumberFront("", d, s);
    assert "" + d + s == d + s;
    var k := [0, Versions.Number(d)] + Versions.Key(s);
    Versions.LexAntisymmetric(k, k);
    Versions.NonEmptyOrder(p + (z + d + s), p + (d + s));
  }

  /** After text, a number is more than nothing; zero is as good as nothing, so that what follows it
      decides. */
  lemma NumberAtEnd(p: string, z: string, d: string, s: string)
    requires p != "" && NoDigitLast(p) && NoDigitFirst(s) && Versions.Plain(s)
    requires AllZeros(z) && AllDigits(d) && z + d != "" && (d != "" ==> d[0] != '0')
    ensures Versions.FragmentOrder(p, p + (z + d + s)) ==
      if d != "" || Rank(s) > 1 then -1 else if s == "" then 0 else 1
  {
    hide Versions.Lex, Versions.Key, Versions.Number, Versions.FragmentOrder;
    PrefixDrops(p, "", z + d + s);
    assert p + "" == p;
    NumberFront(z, d, s);
    KeyOfNothing();
    Versions.LexNumbers(0, [], Versions.Number(d), Versions.Key(s));
    Versions.NonEmptyOrder(p, p + (z + d + s));
    NumberSize(d);
    PowGrows(0, if d == "" then 0 else |d| - 1);
    if s != "" {
      Versions.RestStage(s);
    } else {
      Versions.LexEmpty();
    }
  }

  lemma KeyOfNothing()
    ensures Versions.Key("") == [] && Pow10(0) == 1
  {
  }

  /* Whole versions. */

  /** A version with an epoch, or without, and with a revision, or without. */
  datatype Parts = Parts(epoch: Option<string>, upstream: string, revision: Option<string>)

  function Text(p: Parts): string {
    (match p.epoch case Some(e) => e + ":" case None => "")
    + p.upstream
    + (match p.revision case Some(r) => "-" + r case None => "")
  }

  /** The epoch has no colon, and there are no others without an epoch; the revision has no dash, and
      there are none without a revision. */
  predicate PartsOk(p: Parts) {
    && (match p.epoch
        case Some(e) => e != "" && ':' !in e
        case None => ':' !in p.upstream && (p.revision.Some? ==> ':' !in p.revision.value))
    && (match p.revision
        case Some(r) => p.upstream != "" && '-' !in r
        case None => '-' !in p.upstream)
  }

  /** The epoch without leading zeros is `e`. */
  ghost predicate EpochIs(p: Parts, e: string) {
    match p.epoch
    case None => e == ""
    case Some(w) => exists z :: AllZeros(z) && w == z + e && (e != "" ==> e[0] != '0')
  }

  function RevisionText(p: Parts): string {
    if p.revision.Some? then p.revision.value else ""
  }

  lemma {:induction false} StripsZeros(z: string, e: string)
    requires AllZeros(z) && (e != "" ==> e[0] != '0')
    ensures Versions.StripZeros(z + e) == e
  {
    if z == "" {
      assert z + e == e;
    } else {
      assert (z + e)[1..] == z[1..] + e;
      StripsZeros(z[1..], e);
    }
  }

  lemma PartsFound(p: Parts, e: string)
    requires PartsOk(p) && EpochIs(p, e)
    ensures Versions.Epoch(Text(p)) == e
    ensures Versions.Rest(Text(p)) == Text(p.(epoch := None))
  {
    var v, rest := Text(p), Text(p.(epoch := None));
    match p.epoch
    case Some(w) =>
      assert v == w + (":" + rest);
      Versions.IndexUnique(v, ':', |w|);
      assert v[..|w|] == w && v[|w| + 1..] == rest;
      var z :| AllZeros(z) && w == z + e && (e != "" ==> e[0] != '0');
      StripsZeros(z, e);
    case None =>
      forall i | 0 <= i < |v| ensures v[i] != ':' {
        ColonFree(p, i);
      }
      Versions.IndexUnique(v, ':', |v|);
  }

  lemma ColonFree(p: Parts, i: nat)
    requires PartsOk(p) && p.epoch.None? && i < |Text(p)|
    ensures Text(p)[i] != ':'
  {
    var n := |p.upstream|;
    if i < n {
      assert Text(p)[i] == p.upstream[i];
    } else if i > n {
      assert Text(p)[i] == p.revision.value[i - n - 1];
    }
  }

  /** Epochs decide before upstream versions, these before revisions. A version without epoch is one
      with a zero epoch, whatever number of zeros. */
  lemma PartsDecide(p: Parts, e: string, q: Parts, f: string)
    requires PartsOk(p) && EpochIs(p, e) && PartsOk(q) && EpochIs(q, f)
    ensures Versions.VersionOrder(Text(p), Text(q)) ==
      if Versions.FragmentOrder(e, f) != 0 then Versions.FragmentOrder(e, f)
      else if Versions.FragmentOrder(p.upstream, q.upstream) != 0
      then Versions.FragmentOrder(p.upstream, q.upstream)
      else Versions.FragmentOrder(RevisionText(p), RevisionText(q))
  {
    hide Versions.FragmentOrder, Versions.Epoch, Versions.Rest, Versions.Upstream, Versions.Revision;
    var p1, q1 := p.(epoch := None), q.(epoch := None);
    PartsFound(p, e);
    PartsFound(q, f);
    RestOk(p);
    RestOk(q);
  }

  /** What follows the epoch is divided at its last dash. */
  lemma RestOk(p: Parts)
    requires PartsOk(p)
    ensures var rest := Text(p.(epoch := None));
      Versions.Upstream(rest) == p.upstream && Versions.Revision(rest) == RevisionText(p)
  {
    var v := Text(p.(epoch := None));
    match p.revision
    case Some(r) =>
      assert v == p.upstream + ("-" + r);
      forall i | |p.upstream| < i < |v| ensures v[i] != '-' {
        assert v[i] == r[i - |p.upstream| - 1];
      }
      Versions.DashFound(v, |v|, |p.upstream|);
    case None =>
      assert v == p.upstream;
      Versions.DashMissing(v, |v|);
  }
}
