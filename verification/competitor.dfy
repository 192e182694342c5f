/** The competitor service (`CompetitorService`): a set of
    (brand id, competitor brand id) pairs, unique by construction, with add
    and remove operations that report whether they changed anything. */
module Competitor {
  import opened DbModels

  /** `add_competitor`: a pair already present is left alone and reported
      with false; otherwise it is inserted and reported with true. */
  function AddCompetitor(s: Store, b: nat, c: nat): (r: (Store, bool))
    ensures r.1 <==> (b, c) !in s.competitors
    ensures (b, c) in r.0.competitors
    ensures !r.1 ==> r.0 == s
    ensures r.0.brands == s.brands && r.0.nextId == s.nextId
    ensures forall p :: p != (b, c) ==> (p in r.0.competitors <==> p in s.competitors)
  {
    if (b, c) in s.competitors then (s, false)
    else (s.(competitors := s.competitors + {(b, c)}), true)
  }

  /** `remove_competitor`: an absent pair is reported with false and nothing
      changes; otherwise it is deleted and reported with true. */
  function RemoveCompetitor(s: Store, b: nat, c: nat): (r: (Store, bool))
    ensures r.1 <==> (b, c) in s.competitors
    ensures (b, c) !in r.0.competitors
    ensures !r.1 ==> r.0 == s
    ensures r.0.brands == s.brands && r.0.nextId == s.nextId
    ensures forall p :: p != (b, c) ==> (p in r.0.competitors <==> p in s.competitors)
  {
    if (b, c) !in s.competitors then (s, false)
    else (s.(competitors := s.competitors - {(b, c)}), true)
  }

  /** `get_competitor_brands(b)`: the website urls of the brands whose id is
      paired with `b` as its competitor. */
  function CompetitorsOf(s: Store, b: nat): (r: set<string>)
    ensures forall u :: u in r ==> u in s.brands
  {
    set u | u in s.brands && (b, s.brands[u].id) in s.competitors
  }

  /** A second identical add reports false and changes nothing. */
  lemma AddTwice(s: Store, b: nat, c: nat)
    ensures var (s1, _) := AddCompetitor(s, b, c);
      AddCompetitor(s1, b, c) == (s1, false)
  {
  }

  /** Removing a pair just added restores the store, and adding a pair
      just removed restores it too. */
  lemma AddRemoveInverse(s: Store, b: nat, c: nat)
    ensures (b, c) !in s.competitors ==>
      AddCompetitor(s, b, c).1 && RemoveCompetitor(AddCompetitor(s, b, c).0, b, c) == (s, true)
    ensures (b, c) in s.competitors ==>
      RemoveCompetitor(s, b, c).1 && AddCompetitor(RemoveCompetitor(s, b, c).0, b, c) == (s, true)
  {
    if (b, c) !in s.competitors {
      assert s.competitors + {(b, c)} - {(b, c)} == s.competitors;
    } else {
      assert s.competitors - {(b, c)} + {(b, c)} == s.competitors;
    }
  }

  /** Adding a pair makes the brand with that id one of `b`'s competitors
      and adds no other; removing it takes exactly that brand away, when
      brand ids are distinct. */
  lemma CompetitorsAfterAdd(s: Store, b: nat, u: string)
    requires Valid(s) && u in s.brands
    ensures var c := s.brands[u].id;
      CompetitorsOf(AddCompetitor(s, b, c).0, b) == CompetitorsOf(s, b) + {u}
    ensures var c := s.brands[u].id;
      CompetitorsOf(RemoveCompetitor(s, b, c).0, b) == CompetitorsOf(s, b) - {u}
  {
    var c := s.brands[u].id;
    forall v | v in s.brands && v != u
      ensures s.brands[v].id != c
    {
    }
  }

  /** Competitor pairs never touch the brands' own constraints. */
  lemma PairsKeepValid(s: Store, b: nat, c: nat)
    requires Valid(s)
    ensures Valid(AddCompetitor(s, b, c).0) && Valid(RemoveCompetitor(s, b, c).0)
  {
  }
}
