/** Matching one pair of longitudes against the aspect table. */
module Matches {
  import opened Tables
  import opened Geometry

  /** One emitted aspect: the canonical angle and its table entry, the orb in
      force, how far the pair's separation is from the angle, the two bodies
      (first chart's first) and the dimension tag. */
  datatype AspectMatch = AspectMatch(
    angle: int,
    aspectName: string,
    aspectType: AspectClass,
    symbol: string,
    orb: real,
    deviation: real,
    body1: Body,
    body2: Body,
    dimension: char)

  /** How far a separation is from an aspect's canonical angle. */
  function Deviation(sep: real, a: AspectDef): real
  {
    Abs(sep - a.angle as real)
  }

  /** The record emitted when a pair with separation `sep` matches `a`. */
  function MatchFor(a: AspectDef, orb: real, sep: real, b1: Body, b2: Body): AspectMatch
  {
    AspectMatch(a.angle, a.name, a.kind, a.symbol, orb, Deviation(sep, a), b1, b2, Dimension(a.kind))
  }

  /** The records for table entries k and on, in table order. */
  function MatchesFrom(sep: real, orb: real, b1: Body, b2: Body, k: nat): seq<AspectMatch>
    requires k <= |AspectTable|
    decreases |AspectTable| - k
  {
    if k == |AspectTable| then []
    else
      (if Deviation(sep, AspectTable[k]) <= orb then [MatchFor(AspectTable[k], orb, sep, b1, b2)] else [])
      + MatchesFrom(sep, orb, b1, b2, k + 1)
  }

  /** The records a pair of longitudes produces under `orb`. */
  function PairMatches(long1: real, long2: real, b1: Body, b2: Body, orb: real): seq<AspectMatch>
  {
    MatchesFrom(Separation(long1, long2), orb, b1, b2, 0)
  }

  /** Table entry j matches a pair with separation `sep` under `orb`, and
      m is the record for it. */
  predicate Produces(m: AspectMatch, sep: real, orb: real, b1: Body, b2: Body, j: nat)
  {
    && j < |AspectTable|
    && Deviation(sep, AspectTable[j]) <= orb
    && m == MatchFor(AspectTable[j], orb, sep, b1, b2)
  }

  /** m is the record of some table entry the pair matches. */
  predicate RecordOf(m: AspectMatch, sep: real, orb: real, b1: Body, b2: Body)
  {
    exists j: nat :: j < |AspectTable| && Produces(m, sep, orb, b1, b2, j)
  }

  /** Every record for entries k and on comes from one of those entries. */
  lemma {:induction false} SourceEntry(sep: real, orb: real, b1: Body, b2: Body, k: nat, m: AspectMatch) returns (j: nat)
    requires k <= |AspectTable| && m in MatchesFrom(sep, orb, b1, b2, k)
    ensures k <= j && Produces(m, sep, orb, b1, b2, j)
    decreases |AspectTable| - k
  {
    var a := AspectTable[k];
    if Deviation(sep, a) <= orb && m == MatchFor(a, orb, sep, b1, b2) {
      j := k;
    } else {
      j := SourceEntry(sep, orb, b1, b2, k + 1, m);
    }
  }

  /** Every matching entry from k on contributes its record. */
  lemma {:induction false} EntryContributes(sep: real, orb: real, b1: Body, b2: Body, k: nat, j: nat, m: AspectMatch)
    requires k <= j && Produces(m, sep, orb, b1, b2, j)
    ensures m in MatchesFrom(sep, orb, b1, b2, k)
    decreases j - k
  {
    if k < j {
      EntryContributes(sep, orb, b1, b2, k + 1, j, m);
    }
  }

  /** A pair produces exactly one record for each table entry whose angle
      its separation is within the orb of, and nothing else. */
  lemma PairMatchesIff(long1: real, long2: real, b1: Body, b2: Body, orb: real, m: AspectMatch)
    ensures m in PairMatches(long1, long2, b1, b2, orb) <==> RecordOf(m, Separation(long1, long2), orb, b1, b2)
  {
    var sep := Separation(long1, long2);
    if m in PairMatches(long1, long2, b1, b2, orb) {
      var j := SourceEntry(sep, orb, b1, b2, 0, m);
    }
    if RecordOf(m, sep, orb, b1, b2) {
      var j: nat :| j < |AspectTable| && Produces(m, sep, orb, b1, b2, j);
      EntryContributes(sep, orb, b1, b2, 0, j, m);
    }
  }

  /** For each table entry: its record is produced iff the separation is
      within the orb of its angle. */
  lemma PairMatchesEntry(long1: real, long2: real, b1: Body, b2: Body, orb: real, k: nat)
    requires k < |AspectTable|
    ensures var sep := Separation(long1, long2);
      MatchFor(AspectTable[k], orb, sep, b1, b2) in PairMatches(long1, long2, b1, b2, orb)
      <==> Deviation(sep, AspectTable[k]) <= orb
  {
    var sep := Separation(long1, long2);
    var m := MatchFor(AspectTable[k], orb, sep, b1, b2);
    PairMatchesIff(long1, long2, b1, b2, orb, m);
    if RecordOf(m, sep, orb, b1, b2) {
      var j: nat :| j < |AspectTable| && Produces(m, sep, orb, b1, b2, j);
      AngleOfEntry(j);
      AngleOfEntry(k);
    } else {
      assert !Produces(m, sep, orb, b1, b2, k);
    }
  }

  /** What every produced record carries: the orb, the two bodies in order,
      its true deviation from the canonical angle, which lies in [0, orb],
      the entry's name, class and symbol, and the tag 'H' exactly for the
      Hard angles 0, 90 and 180. */
  lemma RecordFields(m: AspectMatch, sep: real, orb: real, b1: Body, b2: Body)
    requires RecordOf(m, sep, orb, b1, b2)
    ensures AspectDef(m.angle, m.aspectName, m.aspectType, m.symbol) in AspectTable
    ensures m.orb == orb && m.body1 == b1 && m.body2 == b2
    ensures m.deviation == Abs(sep - m.angle as real) && 0.0 <= m.deviation <= orb
    ensures m.dimension == Dimension(m.aspectType)
    ensures m.dimension == 'H' <==> m.angle % 90 == 0
  {
    var j: nat :| j < |AspectTable| && Produces(m, sep, orb, b1, b2, j);
    AspectTableShape();
    assert AspectTable[j] == AspectDef(m.angle, m.aspectName, m.aspectType, m.symbol);
  }

  lemma AngleOfEntry(k: nat)
    requires k < |AspectTable|
    ensures AspectTable[k].angle as real == 30.0 * k as real
  {
    AspectTableShape();
  }

  lemma {:induction false} NoMatchesBeyond(sep: real, orb: real, b1: Body, b2: Body, k: nat)
    requires k <= |AspectTable|
    requires orb < 15.0 && sep <= 30.0 * k as real - 15.0
    ensures MatchesFrom(sep, orb, b1, b2, k) == []
    decreases |AspectTable| - k
  {
    if k < |AspectTable| {
      AngleOfEntry(k);
      NoMatchesBeyond(sep, orb, b1, b2, k + 1);
    }
  }

  lemma {:induction false} AtMostOneFrom(sep: real, orb: real, b1: Body, b2: Body, k: nat)
    requires k <= |AspectTable| && orb < 15.0
    ensures |MatchesFrom(sep, orb, b1, b2, k)| <= 1
    decreases |AspectTable| - k
  {
    if k < |AspectTable| {
      AngleOfEntry(k);
      var rest := MatchesFrom(sep, orb, b1, b2, k + 1);
      if Deviation(sep, AspectTable[k]) <= orb {
        NoMatchesBeyond(sep, orb, b1, b2, k + 1);
        assert MatchesFrom(sep, orb, b1, b2, k) == [MatchFor(AspectTable[k], orb, sep, b1, b2)] + rest;
      } else {
        AtMostOneFrom(sep, orb, b1, b2, k + 1);
        assert MatchesFrom(sep, orb, b1, b2, k) == rest;
      }
    }
  }

  /** The canonical angles are 30 degrees apart, so with an orb below 15
      degrees a pair matches at most one of them. */
  lemma AtMostOneMatchPerPair(long1: real, long2: real, b1: Body, b2: Body, orb: real)
    requires orb < 15.0
    ensures |PairMatches(long1, long2, b1, b2, orb)| <= 1
  {
    AtMostOneFrom(Separation(long1, long2), orb, b1, b2, 0);
  }

  lemma {:induction false} LeadingMisses(sep: real, orb: real, b1: Body, b2: Body, j: nat, k: nat)
    requires j <= k < |AspectTable| && orb < 15.0
    requires sep >= 30.0 * k as real - orb
    ensures MatchesFrom(sep, orb, b1, b2, j) == MatchesFrom(sep, orb, b1, b2, k)
    decreases k - j
  {
    if j < k {
      AngleOfEntry(j);
      assert 30.0 * j as real <= 30.0 * k as real - 30.0;
      assert Deviation(sep, AspectTable[j]) > orb;
      LeadingMisses(sep, orb, b1, b2, j + 1, k);
    }
  }

  /** A pair within the orb of entry k's angle produces that entry's record
      and nothing else. */
  lemma SingleMatch(long1: real, long2: real, b1: Body, b2: Body, orb: real, k: nat)
    requires k < |AspectTable| && orb < 15.0
    requires Deviation(Separation(long1, long2), AspectTable[k]) <= orb
    ensures PairMatches(long1, long2, b1, b2, orb) == [MatchFor(AspectTable[k], orb, Separation(long1, long2), b1, b2)]
  {
    var sep := Separation(long1, long2);
    AngleOfEntry(k);
    LeadingMisses(sep, orb, b1, b2, 0, k);
    NoMatchesBeyond(sep, orb, b1, b2, k + 1);
  }

  /** A pair whose separation is within no angle's orb produces nothing. */
  lemma NoMatch(long1: real, long2: real, b1: Body, b2: Body, orb: real)
    requires forall k :: 0 <= k < |AspectTable| ==> Deviation(Separation(long1, long2), AspectTable[k]) > orb
    ensures PairMatches(long1, long2, b1, b2, orb) == []
  {
    var r := PairMatches(long1, long2, b1, b2, orb);
    forall m
      ensures m !in r
    {
      PairMatchesIff(long1, long2, b1, b2, orb, m);
    }
  }
}
