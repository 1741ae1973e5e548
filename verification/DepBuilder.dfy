/** Building the alternatives of one dep, and dropping deps that always hold. */
module DepBuilders {
  import opened Basics
  import opened Network
  import opened Versions
  import opened Catalogs
  import opened TagSets

  class DepBuilder {
    const altSet: TagSet
    var nAlts: int
    var alts: seq<Cand>

    ghost predicate Valid()
      reads this, altSet, altSet.tags
    {
      && altSet.Valid() && (forall c: Cand :: c in alts ==> c < altSet.tags.Length)
      && (nAlts >= 0 ==> nAlts == |alts| && Distinct(alts) && altSet.Members() == set c: Cand | c in alts)
    }

    /** The alternatives collected so far; nothing for a dep that was killed. */
    ghost function Current(): Option<seq<Cand>>
      reads this
    {
      if nAlts < 0 then None else Some(alts)
    }

    constructor (limit: nat)
      ensures Valid() && altSet.tags.Length == limit && fresh(altSet) && fresh(altSet.tags)
    {
      altSet := new TagSet(limit);
      nAlts, alts := 0, [];
    }

    method Start()
      requires Valid()
      modifies this, altSet
      ensures Valid() && Current() == Some([])
    {
      nAlts, alts := 0, [];
      altSet.Reset();
    }

    method AddAlt(c: Cand)
      requires Valid() && c < altSet.tags.Length
      modifies this, altSet.tags
      ensures Valid()
      ensures Current() == if old(Current()).None? then None else Some(AddNew(old(Current()).value, c))
    {
      if nAlts >= 0 && !altSet.Has(c) {
        altSet.Add(c);
        alts := alts + [c];
        nAlts := nAlts + 1;
      }
    }

    method KillCur()
      requires Valid()
      modifies this
      ensures Valid() && Current() == None
    {
      nAlts := -1;
    }

    /** Does the candidate satisfy the alternative? */
    method CheckSatisfies(cat: Catalog, c: Cand, r: Rule, alt: Alternative) returns (res: bool)
      requires c < |cat.info|
      ensures res == Satisfies(cat, c, r, alt)
    {
      var v := cat.info[c].version;
      if r.goal && alt.op == Eq && alt.version.None? {
        res := v.None?;
      } else if v.None? {
        res := false;
      } else {
        res := CheckVersions(v, alt.op, if alt.version.Some? then alt.version.value else NO_TEXT);
      }
      if r.conf {
        res := !res;
      }
    }

    /** Add what can satisfy one alternative of a rule. */
    method CollectSeatAlts(cat: Catalog, providers: seq<seq<Cand>>, r: Rule, alt: Alternative)
      requires Valid() && ValidCatalog(cat) && ValidProviders(cat, providers) && alt.seat < cat.seats
      requires altSet.tags.Length == |cat.info|
      modifies this, altSet.tags
      ensures Valid()
      ensures Current() ==
        if old(Current()).None? || AllSatisfy(cat, r, alt) then None
        else Some(AddMatching(AddMatching(old(Current()).value, cat.members[alt.seat], Satisfying(cat, r, alt)),
                              providers[alt.seat], Providing(cat, r)))
    {
      if nAlts < 0 {
        return;
      }
      var cs := cat.members[alt.seat];
      assert forall i :: 0 <= i < |cs| ==> OnSeat(cat, cs[i], alt.seat);
      var allSatisfy := AddSatisfying(cat, r, alt, cs);
      if allSatisfy {
        KillCur();
        return;
      }
      var ps := providers[alt.seat];
      forall i | 0 <= i < |ps| ensures ps[i] < |cat.info| {
        assert ps[i] in ps && IsProvider(cat, ps[i], alt.seat);
      }
      AddProviders(cat, r, ps);
    }

    /** Add the candidates that satisfy the alternative. */
    method AddSatisfying(cat: Catalog, r: Rule, alt: Alternative, cs: seq<Cand>) returns (allSatisfy: bool)
      requires Valid() && Current().Some? && altSet.tags.Length == |cat.info|
      requires forall i :: 0 <= i < |cs| ==> cs[i] < |cat.info|
      modifies this, altSet.tags
      ensures Valid() && Current() == Some(AddMatching(old(alts), cs, Satisfying(cat, r, alt)))
      ensures allSatisfy <==> forall k :: 0 <= k < |cs| ==> Satisfying(cat, r, alt)(cs[k])
    {
      allSatisfy := true;
      for i := 0 to |cs|
        invariant Valid() && Current() == Some(AddMatching(old(alts), cs[..i], Satisfying(cat, r, alt)))
        invariant allSatisfy <==> forall k :: 0 <= k < i ==> Satisfying(cat, r, alt)(cs[k])
      {
        assert cs[..i + 1][..i] == cs[..i];
        var ok := CheckSatisfies(cat, cs[i], r, alt);
        if ok {
          AddAlt(cs[i]);
        } else {
          allSatisfy := false;
        }
      }
      assert cs[..|cs|] == cs;
    }

    /** Add the candidates that provide the package, except in conflicts. */
    method AddProviders(cat: Catalog, r: Rule, ps: seq<Cand>)
      requires Valid() && Current().Some? && altSet.tags.Length == |cat.info|
      requires forall i :: 0 <= i < |ps| ==> ps[i] < |cat.info|
      modifies this, altSet.tags
      ensures Valid() && Current() == Some(AddMatching(old(alts), ps, Providing(cat, r)))
    {
      for i := 0 to |ps|
        invariant Valid() && Current() == Some(AddMatching(old(alts), ps[..i], Providing(cat, r)))
      {
        assert ps[..i + 1][..i] == ps[..i];
        if Supplies(cat, ps[i], r) {
          AddAlt(ps[i]);
        }
      }
      assert ps[..|ps|] == ps;
    }

    /** Collect the alternatives of a whole rule. */
    method CollectRule(cat: Catalog, providers: seq<seq<Cand>>, r: Rule)
      requires Valid() && ValidCatalog(cat) && ValidProviders(cat, providers) && ValidAlternatives(cat, r.alts)
      requires altSet.tags.Length == |cat.info|
      modifies this, altSet, altSet.tags
      ensures Valid() && Current() == CompileRule(cat, providers, r)
    {
      Start();
      for i := 0 to |r.alts|
        invariant Valid() && Current() == Compile(cat, providers, r, i)
      {
        CollectSeatAlts(cat, providers, r, r.alts[i]);
      }
      if r.recommended {
        AddAlt(cat.ugly);
      }
    }
  }
}
