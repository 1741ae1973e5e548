/** Reverse deps: what selecting a candidate demands of the seats whose
    candidates depend on its siblings. */
module ReverseDeps {
  import opened Basics
  import opened Network
  import opened Catalogs

  /** The dep can be satisfied by a sibling of `t`, but not by `t`. */
  predicate OnSibling(cat: Catalog, t: Cand, d: Dep)
    requires t < |cat.info|
  {
    !d.reversed && t !in d.alts && exists a :: a in d.alts && a < |cat.info| && cat.info[a].seat == cat.info[t].seat
  }

  function Elsewhere(cat: Catalog, t: Cand): Cand -> bool
    requires t < |cat.info|
  {
    var s := cat.info[t].seat;
    (a: Cand) => a < |cat.info| && cat.info[a].seat != s
  }

  /** What the deps of one candidate contribute. */
  function FromDeps(cat: Catalog, t: Cand, deps: seq<Dep>, acc: seq<Cand>): seq<Cand>
    requires t < |cat.info|
  {
    if deps == [] then acc
    else
      var rest := FromDeps(cat, t, deps[..|deps| - 1], acc);
      var d := deps[|deps| - 1];
      if OnSibling(cat, t, d) then AddMatching(rest, d.alts, Elsewhere(cat, t)) else rest
  }

  predicate HasSiblingDep(cat: Catalog, t: Cand, deps: seq<Dep>)
    requires t < |cat.info|
  {
    exists d :: d in deps && OnSibling(cat, t, d)
  }

  predicate HasConflict(cat: Catalog, t: Cand, deps: seq<Dep>)
    requires t < |cat.info|
  {
    exists d :: d in deps && OnSibling(cat, t, d) && d.rel == Some(Conflicts)
  }

  /** The alternatives of the reverse dep of `t` for the candidates `cs` of another seat. */
  function ReverseAlts(cat: Catalog, deps: seq<seq<Dep>>, t: Cand, cs: seq<Cand>): seq<Cand>
    requires t < |cat.info| && forall i :: 0 <= i < |cs| ==> cs[i] < |deps|
  {
    if cs == [] then []
    else
      var acc := ReverseAlts(cat, deps, t, cs[..|cs| - 1]);
      var c := cs[|cs| - 1];
      if HasSiblingDep(cat, t, deps[c]) then FromDeps(cat, t, deps[c], acc) else AddNew(acc, c)
  }

  /** No candidate of the other seat minds `t`: the dep is not recorded. */
  predicate Trivial(cat: Catalog, deps: seq<seq<Dep>>, t: Cand, cs: seq<Cand>)
    requires t < |cat.info| && forall i :: 0 <= i < |cs| ==> cs[i] < |deps|
  {
    forall i :: 0 <= i < |cs| ==> !HasSiblingDep(cat, t, deps[cs[i]])
  }

  predicate ReverseConflict(cat: Catalog, deps: seq<seq<Dep>>, t: Cand, cs: seq<Cand>)
    requires t < |cat.info| && forall i :: 0 <= i < |cs| ==> cs[i] < |deps|
  {
    exists i :: 0 <= i < |cs| && HasConflict(cat, t, deps[cs[i]])
  }

  lemma {:induction false} FromDepsMembers(cat: Catalog, t: Cand, deps: seq<Dep>, acc: seq<Cand>)
    requires t < |cat.info|
    ensures forall a :: a in FromDeps(cat, t, deps, acc) <==>
      a in acc || exists d :: d in deps && OnSibling(cat, t, d) && a in d.alts && Elsewhere(cat, t)(a)
    ensures Distinct(acc) ==> Distinct(FromDeps(cat, t, deps, acc))
  {
    if deps != [] {
      var before, d := deps[..|deps| - 1], deps[|deps| - 1];
      assert deps == before + [d];
      FromDepsMembers(cat, t, before, acc);
      AddMatchingMembers(FromDeps(cat, t, before, acc), d.alts, Elsewhere(cat, t));
    }
  }

  /** A candidate of the other seat, or what its deps on siblings allow instead. */
  ghost predicate Contributes(cat: Catalog, t: Cand, c: Cand, deps: seq<Dep>, a: Cand)
    requires t < |cat.info|
  {
    if HasSiblingDep(cat, t, deps)
    then exists d :: d in deps && OnSibling(cat, t, d) && a in d.alts && Elsewhere(cat, t)(a)
    else a == c
  }

  lemma {:induction false} ReverseAltsMembers(cat: Catalog, deps: seq<seq<Dep>>, t: Cand, cs: seq<Cand>)
    requires t < |cat.info| && forall i :: 0 <= i < |cs| ==> cs[i] < |deps|
    ensures forall a :: a in ReverseAlts(cat, deps, t, cs) <==>
      exists i :: 0 <= i < |cs| && Contributes(cat, t, cs[i], deps[cs[i]], a)
    ensures Distinct(ReverseAlts(cat, deps, t, cs))
  {
    if cs != [] {
      var before, c := cs[..|cs| - 1], cs[|cs| - 1];
      ReverseAltsMembers(cat, deps, t, before);
      var acc := ReverseAlts(cat, deps, t, before);
      FromDepsMembers(cat, t, deps[c], acc);
      forall a ensures a in ReverseAlts(cat, deps, t, cs) <==> a in acc || Contributes(cat, t, c, deps[c], a) {
      }
      forall a ensures a in ReverseAlts(cat, deps, t, cs) <==>
        exists i :: 0 <= i < |cs| && Contributes(cat, t, cs[i], deps[cs[i]], a)
      {
        if a in acc {
          var i :| 0 <= i < |before| && Contributes(cat, t, before[i], deps[before[i]], a);
          assert cs[i] == before[i];
        }
        if i :| 0 <= i < |cs| && Contributes(cat, t, cs[i], deps[cs[i]], a) {
          if i < |before| {
            assert before[i] == cs[i];
          }
        }
      }
    }
  }

  ghost predicate ForwardHolds(cat: Catalog, sel: Selection, deps: seq<Dep>) {
    forall d :: d in deps && !d.reversed ==> HoldsIn(cat, sel, d)
  }

  /** Where the candidate selected for the other seat has its own deps satisfied,
      the reverse dep of a selected candidate is satisfied; and one that is
      trivial is satisfied wherever the candidate is selected or not. */
  lemma ReverseMeaning(cat: Catalog, deps: seq<seq<Dep>>, t: Cand, s: Seat, sel: Selection)
    requires ValidCatalog(cat) && ValidConfig(cat, sel) && |deps| == |cat.info| && t < |cat.info| && s < cat.seats
    ensures forall i :: 0 <= i < |cat.members[s]| ==> cat.members[s][i] < |deps|
    ensures Chosen(cat, sel, t) && ForwardHolds(cat, sel, deps[sel[s]]) ==>
      exists a :: a in ReverseAlts(cat, deps, t, cat.members[s]) && a < |cat.info| && Chosen(cat, sel, a)
    ensures Trivial(cat, deps, t, cat.members[s]) ==>
      exists a :: a in ReverseAlts(cat, deps, t, cat.members[s]) && a < |cat.info| && Chosen(cat, sel, a)
  {
    var cs := cat.members[s];
    forall i | 0 <= i < |cs| ensures cs[i] < |deps| {
      assert OnSeat(cat, cs[i], s);
    }
    ReverseAltsMembers(cat, deps, t, cs);
    var i :| 0 <= i < |cs| && cs[i] == sel[s];
    var c := sel[s];
    assert OnSeat(cat, c, s) && Chosen(cat, sel, c);
    if !HasSiblingDep(cat, t, deps[c]) {
      assert Contributes(cat, t, cs[i], deps[cs[i]], c);
    } else if Chosen(cat, sel, t) && ForwardHolds(cat, sel, deps[c]) {
      var d :| d in deps[c] && OnSibling(cat, t, d);
      assert HoldsIn(cat, sel, d);
      var a :| a in d.alts && a < |cat.info| && Chosen(cat, sel, a);
      assert Elsewhere(cat, t)(a);
      assert Contributes(cat, t, cs[i], deps[cs[i]], a);
    }
  }

  /** The deps that are not themselves reversed. */
  function Forward(deps: seq<Dep>): seq<Dep> {
    if deps == [] then []
    else
      var d := deps[|deps| - 1];
      Forward(deps[..|deps| - 1]) + if d.reversed then [] else [d]
  }

  /** Deps that were derived in reverse are ignored when deriving others. */
  lemma {:induction false} FromDepsForward(cat: Catalog, t: Cand, deps: seq<Dep>, acc: seq<Cand>)
    requires t < |cat.info|
    ensures FromDeps(cat, t, deps, acc) == FromDeps(cat, t, Forward(deps), acc)
    ensures HasSiblingDep(cat, t, deps) == HasSiblingDep(cat, t, Forward(deps))
    ensures HasConflict(cat, t, deps) == HasConflict(cat, t, Forward(deps))
  {
    if deps != [] {
      var before, d := deps[..|deps| - 1], deps[|deps| - 1];
      assert deps == before + [d];
      FromDepsForward(cat, t, before, acc);
      if d.reversed {
        assert Forward(deps) == Forward(before);
      } else {
        assert Forward(deps) == Forward(before) + [d];
        assert Forward(deps)[..|Forward(deps)| - 1] == Forward(before);
      }
    }
  }

  ghost predicate SameForward(deps: seq<seq<Dep>>, deps': seq<seq<Dep>>) {
    |deps| == |deps'| && forall c :: 0 <= c < |deps| ==> Forward(deps[c]) == Forward(deps'[c])
  }

  lemma {:induction false} ReverseAltsSame(cat: Catalog, deps: seq<seq<Dep>>, deps': seq<seq<Dep>>, t: Cand,
                                           cs: seq<Cand>)
    requires SameForward(deps, deps') && t < |cat.info| && forall i :: 0 <= i < |cs| ==> cs[i] < |deps|
    ensures ReverseAlts(cat, deps, t, cs) == ReverseAlts(cat, deps', t, cs)
  {
    if cs != [] {
      var before, c := cs[..|cs| - 1], cs[|cs| - 1];
      ReverseAltsSame(cat, deps, deps', t, before);
      var acc := ReverseAlts(cat, deps, t, before);
      FromDepsForward(cat, t, deps[c], acc);
      FromDepsForward(cat, t, deps'[c], acc);
    }
  }

  /** Reverse deps are derived from the forward deps alone. */
  lemma ReverseSame(cat: Catalog, deps: seq<seq<Dep>>, deps': seq<seq<Dep>>, t: Cand, cs: seq<Cand>)
    requires SameForward(deps, deps') && t < |cat.info| && forall i :: 0 <= i < |cs| ==> cs[i] < |deps|
    ensures ReverseAlts(cat, deps, t, cs) == ReverseAlts(cat, deps', t, cs)
    ensures Trivial(cat, deps, t, cs) == Trivial(cat, deps', t, cs)
    ensures ReverseConflict(cat, deps, t, cs) == ReverseConflict(cat, deps', t, cs)
  {
    ReverseAltsSame(cat, deps, deps', t, cs);
    forall i | 0 <= i < |cs|
      ensures HasSiblingDep(cat, t, deps[cs[i]]) == HasSiblingDep(cat, t, deps'[cs[i]])
      ensures HasConflict(cat, t, deps[cs[i]]) == HasConflict(cat, t, deps'[cs[i]])
    {
      FromDepsForward(cat, t, deps[cs[i]], []);
      FromDepsForward(cat, t, deps'[cs[i]], []);
    }
  }

  /** The dep is the reverse dep of `t` for some seat. */
  ghost predicate IsReverse(cat: Catalog, deps: seq<seq<Dep>>, t: Cand, d: Dep)
    requires ValidCatalog(cat) && |deps| == |cat.info| && t < |cat.info|
  {
    exists s: nat :: s < cat.seats && IsReverseFor(cat, deps, t, s, d)
  }

  ghost predicate IsReverseFor(cat: Catalog, deps: seq<seq<Dep>>, t: Cand, s: Seat, d: Dep)
    requires ValidCatalog(cat) && |deps| == |cat.info| && t < |cat.info| && s < cat.seats
  {
    MembersAre(cat, s);
    d == ReverseOf(cat, deps, t, s) && !Trivial(cat, deps, t, cat.members[s])
  }

  ghost function ReverseOf(cat: Catalog, deps: seq<seq<Dep>>, t: Cand, s: Seat): Dep
    requires ValidCatalog(cat) && |deps| == |cat.info| && t < |cat.info| && s < cat.seats
  {
    MembersAre(cat, s);
    Dep(ReverseAlts(cat, deps, t, cat.members[s]), None, true, ReverseConflict(cat, deps, t, cat.members[s]))
  }

  lemma MembersAre(cat: Catalog, s: Seat)
    requires ValidCatalog(cat) && s < cat.seats
    ensures forall i :: 0 <= i < |cat.members[s]| ==> cat.members[s][i] < |cat.info|
  {
    forall i | 0 <= i < |cat.members[s]| ensures cat.members[s][i] < |cat.info| {
      assert OnSeat(cat, cat.members[s][i], s);
    }
  }
}
