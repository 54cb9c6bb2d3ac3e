/** The aspect search over one chart (natal) or two (synastry): visit the
    index pairs, match each pair's separation against the aspect table under
    the mode's orb, and sort the records by (angle, body names). */
module AspectEngine {
  import opened Tables
  import opened Optional
  import opened Geometry
  import opened Positions
  import opened Pairs
  import opened Matches
  import opened MatchOrder

  /** Natal when no second chart is given, synastry otherwise. */
  function ModeOf(second: Option<seq<Placement>>): Mode
  {
    if second.None? then Natal else Synastry
  }

  /** The table the inner walk reads: the second chart, or the first again. */
  function Partner(first: seq<Placement>, second: Option<seq<Placement>>): seq<Placement>
  {
    if second.Some? then second.value else first
  }

  /** Every candidate indexes both tables. */
  predicate InRange(first: seq<Placement>, partner: seq<Placement>, cands: seq<(nat, nat)>)
  {
    forall c :: c in cands ==> c.0 < |first| && c.1 < |partner|
  }

  /** m is a record the pair c produces under `orb`. */
  predicate PairRecord(first: seq<Placement>, partner: seq<Placement>, orb: real, c: (nat, nat), m: AspectMatch)
  {
    && c.0 < |first|
    && c.1 < |partner|
    && RecordOf(m, Separation(first[c.0].longitude, partner[c.1].longitude), orb, first[c.0].body, partner[c.1].body)
  }

  /** The records of the candidates, in visiting order. */
  function MatchesOver(first: seq<Placement>, partner: seq<Placement>, orb: real, cands: seq<(nat, nat)>): seq<AspectMatch>
    requires InRange(first, partner, cands)
  {
    if |cands| == 0 then []
    else
      var p := first[cands[0].0];
      var q := partner[cands[0].1];
      PairMatches(p.longitude, q.longitude, p.body, q.body, orb) + MatchesOver(first, partner, orb, cands[1..])
  }

  /** The records in the order the search appends them, before sorting. */
  function Emitted(first: seq<Placement>, second: Option<seq<Placement>>): seq<AspectMatch>
  {
    var partner := Partner(first, second);
    var mode := ModeOf(second);
    var cands := Candidates(mode, |first|, |partner|);
    CandidatesInRange(mode, first, partner);
    MatchesOver(first, partner, ModeOrb(mode), cands)
  }

  lemma CandidatesInRange(mode: Mode, first: seq<Placement>, partner: seq<Placement>)
    ensures InRange(first, partner, Candidates(mode, |first|, |partner|))
  {
    forall c | c in Candidates(mode, |first|, |partner|)
      ensures c.0 < |first| && c.1 < |partner|
    {
      CandidatesExactlyOnce(mode, |first|, |partner|, c);
    }
  }

  lemma {:induction false} MatchesOverIff(first: seq<Placement>, partner: seq<Placement>, orb: real, cands: seq<(nat, nat)>, m: AspectMatch)
    requires InRange(first, partner, cands)
    ensures m in MatchesOver(first, partner, orb, cands) <==> exists c :: c in cands && PairRecord(first, partner, orb, c, m)
  {
    if |cands| > 0 {
      var c0 := cands[0];
      var p := first[c0.0];
      var q := partner[c0.1];
      MatchesOverIff(first, partner, orb, cands[1..], m);
      PairMatchesIff(p.longitude, q.longitude, p.body, q.body, orb, m);
      if c :| c in cands && PairRecord(first, partner, orb, c, m) {
        if c != c0 {
          assert c in cands[1..];
        }
      }
    }
  }

  /** The search result: the emitted records, sorted. Every record carries
      the mode's orb, a deviation within it, and the tag 'H' exactly for the
      Hard aspects at 0, 90 and 180 degrees. */
  function CalculateAspects(first: seq<Placement>, second: Option<seq<Placement>>): (r: seq<AspectMatch>)
    ensures Sorted(r)
    ensures multiset(r) == multiset(Emitted(first, second))
    ensures forall m :: m in r ==>
      && m.orb == ModeOrb(ModeOf(second))
      && 0.0 <= m.deviation <= m.orb
      && (m.dimension == 'H' <==> m.aspectType == Hard)
      && (m.dimension == 'H' <==> m.angle % 90 == 0)
  {
    var r := SortByKey(Emitted(first, second));
    RecordsCarryOrb(first, second, r);
    r
  }

  lemma RecordsCarryOrb(first: seq<Placement>, second: Option<seq<Placement>>, r: seq<AspectMatch>)
    requires multiset(r) == multiset(Emitted(first, second))
    ensures forall m :: m in r ==>
      && m.orb == ModeOrb(ModeOf(second))
      && 0.0 <= m.deviation <= m.orb
      && (m.dimension == 'H' <==> m.aspectType == Hard)
      && (m.dimension == 'H' <==> m.angle % 90 == 0)
  {
    var partner := Partner(first, second);
    var mode := ModeOf(second);
    CandidatesInRange(mode, first, partner);
    forall m | m in r
      ensures m.orb == ModeOrb(mode) && 0.0 <= m.deviation <= m.orb
      ensures (m.dimension == 'H' <==> m.aspectType == Hard) && (m.dimension == 'H' <==> m.angle % 90 == 0)
    {
      assert m in multiset(r);
      MatchesOverIff(first, partner, ModeOrb(mode), Candidates(mode, |first|, |partner|), m);
      var c :| c in Candidates(mode, |first|, |partner|) && PairRecord(first, partner, ModeOrb(mode), c, m);
      RecordFields(m, Separation(first[c.0].longitude, partner[c.1].longitude), ModeOrb(mode), first[c.0].body, partner[c.1].body);
    }
  }

  /** A record is in the result exactly when some visited pair produces it:
      in natal mode a pair (i, j) of one chart with i < j, in synastry any
      pair of a first-chart body and a second-chart body, first-chart body
      recorded first. */
  lemma CalculateAspectsIff(first: seq<Placement>, second: Option<seq<Placement>>, m: AspectMatch)
    ensures var partner := Partner(first, second);
      m in CalculateAspects(first, second) <==>
      exists c :: Visited(ModeOf(second), |first|, |partner|, c) && PairRecord(first, partner, ModeOrb(ModeOf(second)), c, m)
  {
    var partner := Partner(first, second);
    var mode := ModeOf(second);
    var cands := Candidates(mode, |first|, |partner|);
    CandidatesInRange(mode, first, partner);
    MatchesOverIff(first, partner, ModeOrb(mode), cands, m);
    assert m in CalculateAspects(first, second) <==> m in multiset(Emitted(first, second));
    forall c
      ensures c in cands <==> Visited(mode, |first|, |partner|, c)
    {
      CandidatesExactlyOnce(mode, |first|, |partner|, c);
    }
  }

  /** For a visited pair (i, j) and table entry k, the entry's record is in
      the result iff the pair's separation is within the mode's orb of the
      entry's angle. */
  lemma AspectEmittedIff(first: seq<Placement>, second: Option<seq<Placement>>, i: nat, j: nat, k: nat)
    requires Visited(ModeOf(second), |first|, |Partner(first, second)|, (i, j))
    requires k < |AspectTable|
    ensures var partner := Partner(first, second);
      var orb := ModeOrb(ModeOf(second));
      var sep := Separation(first[i].longitude, partner[j].longitude);
      MatchFor(AspectTable[k], orb, sep, first[i].body, partner[j].body) in CalculateAspects(first, second)
      <==> Deviation(sep, AspectTable[k]) <= orb
  {
    var partner := Partner(first, second);
    var orb := ModeOrb(ModeOf(second));
    var sep := Separation(first[i].longitude, partner[j].longitude);
    var m := MatchFor(AspectTable[k], orb, sep, first[i].body, partner[j].body);
    CalculateAspectsIff(first, second, m);
    if Deviation(sep, AspectTable[k]) <= orb {
      assert Produces(m, sep, orb, first[i].body, partner[j].body, k);
      assert PairRecord(first, partner, orb, (i, j), m);
    }
    assert m.deviation == Deviation(sep, AspectTable[k]) && m.orb == orb;
  }

  /** Different positions of a table with distinct bodies hold different bodies. */
  lemma BodiesAt(ps: seq<Placement>, i: nat, j: nat)
    requires DistinctBodies(ps) && i < |ps| && j < |ps|
    ensures ps[i].body == ps[j].body <==> i == j
  {
  }

  lemma KeysDistinctConcat(a: seq<AspectMatch>, b: seq<AspectMatch>)
    requires KeysDistinct(a) && KeysDistinct(b)
    requires forall x, y :: x in a && y in b ==> !SameKey(x, y)
    ensures KeysDistinct(a + b)
  {
    var ab := a + b;
    forall i, j | 0 <= i < j < |ab|
      ensures !SameKey(ab[i], ab[j])
    {
      if j < |a| {
        assert ab[i] == a[i] && ab[j] == a[j];
      } else if i >= |a| {
        assert ab[i] == b[i - |a|] && ab[j] == b[j - |a|];
      } else {
        assert ab[i] in a && ab[j] in b;
      }
    }
  }

  /** A list with no repeats keeps none after its head, and its head is not
      repeated after it. */
  lemma TailOnce(cands: seq<(nat, nat)>)
    requires |cands| > 0
    requires forall c :: multiset(cands)[c] <= 1
    ensures forall c :: multiset(cands[1..])[c] <= 1
    ensures cands[0] !in cands[1..]
  {
    var head: seq<(nat, nat)> := [cands[0]];
    var rest := cands[1..];
    assert cands == head + rest;
    forall c
      ensures multiset(rest)[c] <= 1
    {
      assert multiset(cands)[c] == multiset(head)[c] + multiset(rest)[c];
    }
    assert multiset(cands)[cands[0]] == 1 + multiset(rest)[cands[0]];
  }

  /** Records of two different pairs from tables with distinct bodies never
      share a key. */
  lemma DifferentPairsDifferentKeys(first: seq<Placement>, partner: seq<Placement>, orb: real,
                                    c0: (nat, nat), rest: seq<(nat, nat)>, x: AspectMatch, y: AspectMatch)
    requires c0.0 < |first| && c0.1 < |partner| && InRange(first, partner, rest)
    requires DistinctBodies(first) && DistinctBodies(partner)
    requires c0 !in rest
    requires x in PairMatches(first[c0.0].longitude, partner[c0.1].longitude, first[c0.0].body, partner[c0.1].body, orb)
    requires y in MatchesOver(first, partner, orb, rest)
    ensures !SameKey(x, y)
  {
    var p := first[c0.0];
    var q := partner[c0.1];
    PairMatchesIff(p.longitude, q.longitude, p.body, q.body, orb, x);
    RecordFields(x, Separation(p.longitude, q.longitude), orb, p.body, q.body);
    MatchesOverIff(first, partner, orb, rest, y);
    var c :| c in rest && PairRecord(first, partner, orb, c, y);
    RecordFields(y, Separation(first[c.0].longitude, partner[c.1].longitude), orb, first[c.0].body, partner[c.1].body);
    BodiesAt(first, c.0, c0.0);
    BodiesAt(partner, c.1, c0.1);
  }

  lemma {:induction false} MatchesOverKeysDistinct(first: seq<Placement>, partner: seq<Placement>, orb: real, cands: seq<(nat, nat)>)
    requires InRange(first, partner, cands)
    requires orb < 15.0
    requires DistinctBodies(first) && DistinctBodies(partner)
    requires forall c :: multiset(cands)[c] <= 1
    ensures KeysDistinct(MatchesOver(first, partner, orb, cands))
  {
    if |cands| > 0 {
      var c0 := cands[0];
      var rest := cands[1..];
      TailOnce(cands);
      MatchesOverKeysDistinct(first, partner, orb, rest);
      var p := first[c0.0];
      var q := partner[c0.1];
      var here := PairMatches(p.longitude, q.longitude, p.body, q.body, orb);
      var later := MatchesOver(first, partner, orb, rest);
      AtMostOneMatchPerPair(p.longitude, q.longitude, p.body, q.body, orb);
      forall x, y | x in here && y in later
        ensures !SameKey(x, y)
      {
        DifferentPairsDifferentKeys(first, partner, orb, c0, rest, x, y);
      }
      KeysDistinctConcat(here, later);
    }
  }

  /** When each chart lists a body at most once, no two records share a key,
      so the result is strictly ascending by (angle, first name, second name). */
  lemma AspectsStrictlyOrdered(first: seq<Placement>, second: Option<seq<Placement>>)
    requires DistinctBodies(first)
    requires second.Some? ==> DistinctBodies(second.value)
    ensures StrictlySorted(CalculateAspects(first, second))
    ensures KeysDistinct(Emitted(first, second))
  {
    var partner := Partner(first, second);
    var mode := ModeOf(second);
    var cands := Candidates(mode, |first|, |partner|);
    CandidatesInRange(mode, first, partner);
    forall c
      ensures multiset(cands)[c] <= 1
    {
      CandidatesExactlyOnce(mode, |first|, |partner|, c);
    }
    MatchesOverKeysDistinct(first, partner, ModeOrb(mode), cands);
    SortStrict(Emitted(first, second));
  }

  /** The result is the only strictly ascending arrangement of the emitted
      records: the order does not depend on how the sort breaks ties. */
  lemma AspectOrderDetermined(first: seq<Placement>, second: Option<seq<Placement>>, r: seq<AspectMatch>)
    requires DistinctBodies(first)
    requires second.Some? ==> DistinctBodies(second.value)
    requires StrictlySorted(r) && multiset(r) == multiset(Emitted(first, second))
    ensures r == CalculateAspects(first, second)
  {
    AspectsStrictlyOrdered(first, second);
    StrictlySortedUnique(r, CalculateAspects(first, second));
  }

  /** The visited pair an appended record comes from. */
  lemma PairOfEmitted(first: seq<Placement>, second: Option<seq<Placement>>, m: AspectMatch) returns (c: (nat, nat))
    requires m in Emitted(first, second)
    ensures Visited(ModeOf(second), |first|, |Partner(first, second)|, c)
    ensures m.body1 == first[c.0].body && m.body2 == Partner(first, second)[c.1].body
  {
    var partner := Partner(first, second);
    var mode := ModeOf(second);
    var orb := ModeOrb(mode);
    var cands := Candidates(mode, |first|, |partner|);
    CandidatesInRange(mode, first, partner);
    MatchesOverIff(first, partner, orb, cands, m);
    c :| c in cands && PairRecord(first, partner, orb, c, m);
    CandidatesExactlyOnce(mode, |first|, |partner|, c);
    RecordFields(m, Separation(first[c.0].longitude, partner[c.1].longitude), orb, first[c.0].body, partner[c.1].body);
  }

  /** The visited pair a record of the result comes from. */
  lemma PairOfRecord(first: seq<Placement>, second: Option<seq<Placement>>, m: AspectMatch) returns (i: nat, j: nat)
    requires m in CalculateAspects(first, second)
    ensures Visited(ModeOf(second), |first|, |Partner(first, second)|, (i, j))
    ensures m.body1 == first[i].body && m.body2 == Partner(first, second)[j].body
  {
    assert m in multiset(CalculateAspects(first, second));
    var c := PairOfEmitted(first, second, m);
    i, j := c.0, c.1;
  }

  /** In natal mode over a chart with distinct bodies, no record pairs a body
      with itself. */
  lemma NatalNeverPairsBodyWithItself(first: seq<Placement>, m: AspectMatch)
    requires DistinctBodies(first)
    requires m in CalculateAspects(first, None)
    ensures m.body1 != m.body2
  {
    var i, j := PairOfRecord(first, None, m);
    BodiesAt(first, i, j);
  }

  /** In natal mode over a chart with distinct bodies, an unordered pair of
      bodies appears in one orientation only. */
  lemma NatalListsEachPairOneWay(first: seq<Placement>, m: AspectMatch, m': AspectMatch)
    requires DistinctBodies(first)
    requires m in CalculateAspects(first, None) && m' in CalculateAspects(first, None)
    ensures !(m'.body1 == m.body2 && m'.body2 == m.body1)
  {
    var i, j := PairOfRecord(first, None, m);
    var i', j' := PairOfRecord(first, None, m');
    BodiesAt(first, i', j);
    BodiesAt(first, j', i);
  }

  /** With no pair to visit (an empty chart, a natal chart of one body, or an
      empty second chart) the result is empty. */
  lemma NothingToCompare(first: seq<Placement>, second: Option<seq<Placement>>)
    requires |first| == 0 || (second.None? && |first| == 1) || (second.Some? && |second.value| == 0)
    ensures CalculateAspects(first, second) == []
  {
    CandidateCounts(|first|, |Partner(first, second)|);
    assert Emitted(first, second) == [];
    assert |multiset(CalculateAspects(first, second))| == 0;
  }

  /** Two tables list the same bodies at the same longitudes, index by index;
      retrograde flags and markers may differ. */
  predicate SameSky(a: seq<Placement>, b: seq<Placement>)
  {
    && |a| == |b|
    && forall k :: 0 <= k < |a| ==> a[k].body == b[k].body && a[k].longitude == b[k].longitude
  }

  /** Matching reads only bodies and longitudes. */
  lemma {:induction false} MatchesOverReadsSky(f1: seq<Placement>, p1: seq<Placement>, f2: seq<Placement>, p2: seq<Placement>,
                                               orb: real, cands: seq<(nat, nat)>)
    requires SameSky(f1, f2) && SameSky(p1, p2)
    requires InRange(f1, p1, cands)
    ensures InRange(f2, p2, cands)
    ensures MatchesOver(f1, p1, orb, cands) == MatchesOver(f2, p2, orb, cands)
  {
    if |cands| > 0 {
      assert InRange(f1, p1, cands[1..]) by {
        forall c | c in cands[1..] ensures c in cands { }
      }
      MatchesOverReadsSky(f1, p1, f2, p2, orb, cands[1..]);
      assert f1[cands[0].0].body == f2[cands[0].0].body && f1[cands[0].0].longitude == f2[cands[0].0].longitude;
      assert p1[cands[0].1].body == p2[cands[0].1].body && p1[cands[0].1].longitude == p2[cands[0].1].longitude;
    }
  }

  /** The search result depends only on the bodies and longitudes of the
      charts, not on their retrograde flags or markers. */
  lemma SkyDeterminesAspects(a: seq<Placement>, sa: Option<seq<Placement>>, b: seq<Placement>, sb: Option<seq<Placement>>)
    requires SameSky(a, b)
    requires sa.Some? <==> sb.Some?
    requires sa.Some? ==> SameSky(sa.value, sb.value)
    ensures CalculateAspects(a, sa) == CalculateAspects(b, sb)
  {
    var mode := ModeOf(sa);
    CandidatesInRange(mode, a, Partner(a, sa));
    MatchesOverReadsSky(a, Partner(a, sa), b, Partner(b, sb), ModeOrb(mode), Candidates(mode, |a|, |Partner(a, sa)|));
    assert Emitted(a, sa) == Emitted(b, sb);
  }

  /** The corrected resolver changes only a marker, so natal and synastry
      searches over its charts give the same records as over the charts the
      source resolves. */
  lemma CorrectionKeepsAspects(eph1: Ephemeris, t1: Instant, ready1: bool, eph2: Ephemeris, t2: Instant, ready2: bool)
    ensures var w1 := ResolvePositions(eph1, t1, ready1);
      var w2 := ResolvePositions(eph2, t2, ready2);
      var c1 := ResolvePositionsCorrected(eph1, t1, ready1);
      var c2 := ResolvePositionsCorrected(eph2, t2, ready2);
      && CalculateAspects(w1, None) == CalculateAspects(c1, None)
      && CalculateAspects(w1, Some(w2)) == CalculateAspects(c1, Some(c2))
  {
    var w1 := ResolvePositions(eph1, t1, ready1);
    var w2 := ResolvePositions(eph2, t2, ready2);
    var c1 := ResolvePositionsCorrected(eph1, t1, ready1);
    var c2 := ResolvePositionsCorrected(eph2, t2, ready2);
    assert SameSky(w1, c1);
    assert SameSky(w2, c2);
    SkyDeterminesAspects(w1, None, c1, None);
    SkyDeterminesAspects(w1, Some(w2), c1, Some(c2));
  }

  /** A resolved chart lists the eleven roster bodies once each. */
  lemma ResolvedChartShape(eph: Ephemeris, t: Instant, ready: bool)
    ensures var c := ResolvePositions(eph, t, ready);
      |c| == |Roster| && DistinctBodies(c)
  {
  }

  /** Over the roster, natal mode visits 55 pairs and synastry 121. */
  lemma RosterPairCounts()
    ensures |Candidates(Natal, |Roster|, |Roster|)| == 55
    ensures |Candidates(Synastry, |Roster|, |Roster|)| == 121
  {
    CandidateCounts(|Roster|, |Roster|);
  }

  /** Any two charts that list eleven bodies once each: natal mode visits 55
      pairs, synastry 121, and both results are strictly ordered. */
  lemma FullChartsCompare(c1: seq<Placement>, c2: seq<Placement>)
    requires |c1| == |Roster| && DistinctBodies(c1)
    requires |c2| == |Roster| && DistinctBodies(c2)
    ensures |Candidates(Natal, |c1|, |c1|)| == 55
    ensures |Candidates(Synastry, |c1|, |c2|)| == 121
    ensures StrictlySorted(CalculateAspects(c1, None))
    ensures StrictlySorted(CalculateAspects(c1, Some(c2)))
  {
    RosterPairCounts();
    AspectsStrictlyOrdered(c1, None);
    AspectsStrictlyOrdered(c1, Some(c2));
  }

  /** Natal mode over a resolved chart visits 55 pairs and synastry between
      two resolved charts 121; both results are strictly ordered. */
  lemma ResolvedChartsCompare(eph1: Ephemeris, t1: Instant, ready1: bool, eph2: Ephemeris, t2: Instant, ready2: bool)
    ensures var c1 := ResolvePositions(eph1, t1, ready1);
      var c2 := ResolvePositions(eph2, t2, ready2);
      && |Candidates(Natal, |c1|, |c1|)| == 55
      && |Candidates(Synastry, |c1|, |c2|)| == 121
      && StrictlySorted(CalculateAspects(c1, None))
      && StrictlySorted(CalculateAspects(c1, Some(c2)))
  {
    ResolvedChartShape(eph1, t1, ready1);
    ResolvedChartShape(eph2, t2, ready2);
    FullChartsCompare(ResolvePositions(eph1, t1, ready1), ResolvePositions(eph2, t2, ready2));
  }
}
