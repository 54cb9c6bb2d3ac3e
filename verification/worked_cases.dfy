/** Worked cases of the aspect search on small charts. */
module EngineExamples {
  import opened Tables
  import opened Optional
  import opened Geometry
  import opened Positions
  import opened Pairs
  import opened Matches
  import opened MatchOrder
  import opened AspectEngine

  function At(b: Body, longitude: real): Placement
  {
    Placement(b, longitude, false, "")
  }

  lemma TwoBodyNatalVisitsOnePair()
    ensures Candidates(Natal, 2, 2) == [(0, 1)]
  {
    assert Row(Natal, 0, 0, 2) == [(0, 1)];
    assert Row(Natal, 1, 0, 2) == [];
  }

  lemma OneByOneSynastryVisitsOnePair()
    ensures Candidates(Synastry, 1, 1) == [(0, 0)]
  {
    assert Row(Synastry, 0, 0, 1) == [(0, 0)];
  }

  /** A two-body natal chart appends exactly the records of its one pair. */
  lemma NatalPairEmits(p: Placement, q: Placement)
    ensures Emitted([p, q], None) == PairMatches(p.longitude, q.longitude, p.body, q.body, 3.0)
  {
    TwoBodyNatalVisitsOnePair();
    var first := [p, q];
    var cands: seq<(nat, nat)> := [(0, 1)];
    assert Emitted(first, None) == MatchesOver(first, first, 3.0, cands);
    assert MatchesOver(first, first, 3.0, cands)
      == PairMatches(p.longitude, q.longitude, p.body, q.body, 3.0) + MatchesOver(first, first, 3.0, []);
  }

  /** One body against one body appends exactly the records of that pair. */
  lemma SynastryPairEmits(p: Placement, q: Placement)
    ensures Emitted([p], Some([q])) == PairMatches(p.longitude, q.longitude, p.body, q.body, 1.0)
  {
    OneByOneSynastryVisitsOnePair();
    var cands: seq<(nat, nat)> := [(0, 0)];
    assert Emitted([p], Some([q])) == MatchesOver([p], [q], 1.0, cands);
    assert MatchesOver([p], [q], 1.0, cands)
      == PairMatches(p.longitude, q.longitude, p.body, q.body, 1.0) + MatchesOver([p], [q], 1.0, []);
  }

  /** A search that appends one record returns just that record. */
  lemma OneRecord(first: seq<Placement>, second: Option<seq<Placement>>, m: AspectMatch)
    requires Emitted(first, second) == [m]
    ensures CalculateAspects(first, second) == [m]
  {
    var r := CalculateAspects(first, second);
    assert |multiset(r)| == 1;
    assert r[0] in multiset(r);
  }

  /** A search that appends nothing returns nothing. */
  lemma NoRecords(first: seq<Placement>, second: Option<seq<Placement>>)
    requires Emitted(first, second) == []
    ensures CalculateAspects(first, second) == []
  {
    assert |multiset(CalculateAspects(first, second))| == 0;
  }

  /** Longitudes 10 and 100.2 in one chart are a Square, 0.2 degrees off. */
  lemma SquareWithinNatalOrb()
    ensures CalculateAspects([At(Sun, 10.0), At(Moon, 100.2)], None)
      == [AspectMatch(90, "Square", Hard, "\U{25A1}", 3.0, 0.2, Sun, Moon, 'H')]
  {
    NatalPairEmits(At(Sun, 10.0), At(Moon, 100.2));
    SquarePair();
    OneRecord([At(Sun, 10.0), At(Moon, 100.2)], None, AspectMatch(90, "Square", Hard, "\U{25A1}", 3.0, 0.2, Sun, Moon, 'H'));
  }

  lemma SquarePair()
    ensures PairMatches(10.0, 100.2, Sun, Moon, 3.0) == [AspectMatch(90, "Square", Hard, "\U{25A1}", 3.0, 0.2, Sun, Moon, 'H')]
  {
    assert Separation(10.0, 100.2) == 90.2;
    SingleMatch(10.0, 100.2, Sun, Moon, 3.0, 3);
  }

  lemma TrinePair(orb: real)
    requires 0.0 <= orb < 15.0
    ensures PairMatches(10.0, 130.0, Venus, Mars, orb) == [AspectMatch(120, "Trine", Soft, "\U{25B3}", orb, 0.0, Venus, Mars, 'S')]
  {
    assert Separation(10.0, 130.0) == 120.0;
    SingleMatch(10.0, 130.0, Venus, Mars, orb, 4);
  }

  /** Longitudes 10 and 130 in one chart are an exact Trine. */
  lemma ExactTrineNatal()
    ensures CalculateAspects([At(Venus, 10.0), At(Mars, 130.0)], None)
      == [AspectMatch(120, "Trine", Soft, "\U{25B3}", 3.0, 0.0, Venus, Mars, 'S')]
  {
    NatalPairEmits(At(Venus, 10.0), At(Mars, 130.0));
    TrinePair(3.0);
    OneRecord([At(Venus, 10.0), At(Mars, 130.0)], None, AspectMatch(120, "Trine", Soft, "\U{25B3}", 3.0, 0.0, Venus, Mars, 'S'));
  }

  /** The same longitudes across two charts are an exact Trine under the
      tighter synastry orb too. */
  lemma ExactTrineSynastry()
    ensures CalculateAspects([At(Venus, 10.0)], Some([At(Mars, 130.0)]))
      == [AspectMatch(120, "Trine", Soft, "\U{25B3}", 1.0, 0.0, Venus, Mars, 'S')]
  {
    SynastryPairEmits(At(Venus, 10.0), At(Mars, 130.0));
    TrinePair(1.0);
    OneRecord([At(Venus, 10.0)], Some([At(Mars, 130.0)]), AspectMatch(120, "Trine", Soft, "\U{25B3}", 1.0, 0.0, Venus, Mars, 'S'));
  }

  /** A separation of 91.5 is within the natal orb of the Square and within
      the synastry orb of nothing. */
  lemma OffSquarePair()
    ensures |PairMatches(10.0, 101.5, Sun, Moon, 3.0)| == 1
    ensures PairMatches(10.0, 101.5, Sun, Moon, 1.0) == []
  {
    assert Separation(10.0, 101.5) == 91.5;
    SingleMatch(10.0, 101.5, Sun, Moon, 3.0, 3);
    AspectTableShape();
    NoMatch(10.0, 101.5, Sun, Moon, 1.0);
  }

  /** A separation 1.5 degrees off a Square matches under the natal orb but
      not under the tighter synastry orb. */
  lemma SynastryOrbIsTighter()
    ensures |CalculateAspects([At(Sun, 10.0), At(Moon, 101.5)], None)| == 1
    ensures CalculateAspects([At(Sun, 10.0)], Some([At(Moon, 101.5)])) == []
  {
    NatalPairEmits(At(Sun, 10.0), At(Moon, 101.5));
    SynastryPairEmits(At(Sun, 10.0), At(Moon, 101.5));
    OffSquarePair();
    var natal := CalculateAspects([At(Sun, 10.0), At(Moon, 101.5)], None);
    assert |multiset(natal)| == 1;
    NoRecords([At(Sun, 10.0)], Some([At(Moon, 101.5)]));
  }

  /** Separation is measured the short way round the circle: 359 and 1 are
      2 degrees apart, outside the synastry orb of a Conjunction. */
  lemma FarAcrossZero()
    ensures CalculateAspects([At(Sun, 359.0)], Some([At(Moon, 1.0)])) == []
  {
    SynastryPairEmits(At(Sun, 359.0), At(Moon, 1.0));
    assert Separation(359.0, 1.0) == 2.0;
    AspectTableShape();
    NoMatch(359.0, 1.0, Sun, Moon, 1.0);
    NoRecords([At(Sun, 359.0)], Some([At(Moon, 1.0)]));
  }

  lemma ConjunctionPair()
    ensures PairMatches(359.5, 0.3, Sun, Moon, 1.0) == [AspectMatch(0, "Conjunction", Hard, "\U{260C}", 1.0, 0.8, Sun, Moon, 'H')]
  {
    assert Separation(359.5, 0.3) == 0.8;
    SingleMatch(359.5, 0.3, Sun, Moon, 1.0, 0);
  }

  /** 359.5 and 0.3 are 0.8 degrees apart across 0, a Conjunction within the
      synastry orb. */
  lemma ConjunctionAcrossZero()
    ensures CalculateAspects([At(Sun, 359.5)], Some([At(Moon, 0.3)]))
      == [AspectMatch(0, "Conjunction", Hard, "\U{260C}", 1.0, 0.8, Sun, Moon, 'H')]
  {
    SynastryPairEmits(At(Sun, 359.5), At(Moon, 0.3));
    ConjunctionPair();
    OneRecord([At(Sun, 359.5)], Some([At(Moon, 0.3)]), AspectMatch(0, "Conjunction", Hard, "\U{260C}", 1.0, 0.8, Sun, Moon, 'H'));
  }
}
