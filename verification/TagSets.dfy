/** Sets of small ids with constant-time reset: an id is a member when its tag
    equals the current one. */
module TagSets {

  class TagSet {
    const tags: array<int>
    var tag: int

    ghost predicate Valid()
      reads this, tags
    {
      tag >= 1 && forall c: nat :: c < tags.Length ==> 0 <= tags[c] <= tag
    }

    ghost function Members(): set<nat>
      reads this, tags
    {
      set c: nat {:trigger tags[c]} | c < tags.Length && tags[c] == tag
    }

    constructor (limit: nat)
      ensures Valid() && Members() == {} && fresh(tags) && tags.Length == limit
    {
      tags := new int[limit](_ => 0);
      tag := 1;
    }

    method Reset()
      requires Valid()
      modifies this
      ensures Valid() && Members() == {}
    {
      tag := tag + 1;
    }

    method Add(c: nat)
      requires Valid() && c < tags.Length
      modifies tags
      ensures Valid() && Members() == old(Members()) + {c}
    {
      tags[c] := tag;
    }

    method Remove(c: nat)
      requires Valid() && c < tags.Length
      modifies tags
      ensures Valid() && Members() == old(Members()) - {c}
    {
      tags[c] := 0;
    }

    predicate Has(c: nat)
      requires Valid() && c < tags.Length
      reads this, tags
      ensures Has(c) <==> c in Members()
    {
      tags[c] == tag
    }
  }
}
