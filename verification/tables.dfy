/** The static tables the engine reads: the body roster, the orb policy and
    the aspect table, together with the name order the result sort uses. */
module Tables {

  /** The fixed roster of bodies. */
  datatype Body = Sun | Moon | Mercury | Venus | Mars | Jupiter | Saturn | Uranus | Neptune | Pluto | Chiron

  /** The roster in the order positions are resolved. */
  const Roster: seq<Body> := [Sun, Moon, Mercury, Venus, Mars, Jupiter, Saturn, Uranus, Neptune, Pluto, Chiron]

  /** The name a body is keyed by in a positions table. */
  function Name(b: Body): string
  {
    match b
    case Sun => "Sun"
    case Moon => "Moon"
    case Mercury => "Mercury"
    case Venus => "Venus"
    case Mars => "Mars"
    case Jupiter => "Jupiter"
    case Saturn => "Saturn"
    case Uranus => "Uranus"
    case Neptune => "Neptune"
    case Pluto => "Pluto"
    case Chiron => "Chiron"
  }

  /** Every body appears in the roster exactly once. */
  lemma RosterListsEachBodyOnce(b: Body)
    ensures b in Roster
    ensures forall i, j :: 0 <= i < j < |Roster| ==> Roster[i] != Roster[j]
  {
  }

  /** String order as Python compares `str` values: code point by code point,
      with a proper prefix ordered first. */
  predicate StrLess(a: string, b: string)
    decreases |a|
  {
    if |a| == 0 then |b| > 0
    else if |b| == 0 then false
    else if a[0] != b[0] then a[0] < b[0]
    else StrLess(a[1..], b[1..])
  }

  /** A string never precedes itself. */
  lemma {:induction false} StrLessIrreflexive(a: string)
    ensures !StrLess(a, a)
    decreases |a|
  {
    if |a| > 0 {
      StrLessIrreflexive(a[1..]);
    }
  }

  /** Two strings are never each before the other. */
  lemma {:induction false} StrLessAsymmetric(a: string, b: string)
    requires StrLess(a, b)
    ensures !StrLess(b, a)
    decreases |a|
  {
    if |a| > 0 && |b| > 0 && a[0] == b[0] {
      StrLessAsymmetric(a[1..], b[1..]);
    }
  }

  lemma {:induction false} StrLessTransitive(a: string, b: string, c: string)
    requires StrLess(a, b) && StrLess(b, c)
    ensures StrLess(a, c)
    decreases |a|
  {
    if |a| > 0 && a[0] == b[0] && b[0] == c[0] {
      StrLessTransitive(a[1..], b[1..], c[1..]);
    }
  }

  /** The bodies in alphabetical order of their names. */
  const Alphabetical: seq<Body> := [Chiron, Jupiter, Mars, Mercury, Moon, Neptune, Pluto, Saturn, Sun, Uranus, Venus]

  /** The position of a body's name in alphabetical order. */
  function NameRank(b: Body): (r: nat)
    ensures r < |Alphabetical| && Alphabetical[r] == b
  {
    match b
    case Chiron => 0
    case Jupiter => 1
    case Mars => 2
    case Mercury => 3
    case Moon => 4
    case Neptune => 5
    case Pluto => 6
    case Saturn => 7
    case Sun => 8
    case Uranus => 9
    case Venus => 10
  }

  /** Each name in the alphabetical roster precedes every later one. */
  lemma {:induction false} AlphabeticalIsSorted(i: nat, j: nat)
    requires i < j < |Alphabetical|
    ensures StrLess(Name(Alphabetical[i]), Name(Alphabetical[j]))
    decreases j - i
  {
    if i + 1 < j {
      AlphabeticalIsSorted(i + 1, j);
      AlphabeticalIsSorted(i, i + 1);
      StrLessTransitive(Name(Alphabetical[i]), Name(Alphabetical[i + 1]), Name(Alphabetical[j]));
    } else {
      assert StrLess("Chiron", "Jupiter");
      assert StrLess("Jupiter", "Mars");
      assert StrLess("Mars", "Mercury");
      assert StrLess("Mercury", "Moon");
      assert StrLess("Moon", "Neptune");
      assert StrLess("Neptune", "Pluto");
      assert StrLess("Pluto", "Saturn");
      assert StrLess("Saturn", "Sun");
      assert StrLess("Sun", "Uranus");
      assert StrLess("Uranus", "Venus");
    }
  }

  /** Comparing ranks is comparing names as Python strings, and different
      bodies have different ranks. */
  lemma NameRankOrdersNames(a: Body, b: Body)
    ensures NameRank(a) < NameRank(b) <==> StrLess(Name(a), Name(b))
    ensures NameRank(a) == NameRank(b) <==> a == b
  {
    if NameRank(a) < NameRank(b) {
      AlphabeticalIsSorted(NameRank(a), NameRank(b));
    } else if NameRank(b) < NameRank(a) {
      AlphabeticalIsSorted(NameRank(b), NameRank(a));
      StrLessAsymmetric(Name(b), Name(a));
    } else {
      StrLessIrreflexive(Name(a));
    }
  }

  /** Orb classes keyed by comparison mode and magnitude. */
  datatype OrbClass = MajorNatal | MinorNatal | MajorSynastry | MinorSynastry

  /** Orb tolerance in degrees for each class. */
  function Orb(c: OrbClass): real
  {
    match c
    case MajorNatal => 3.0
    case MinorNatal => 1.0
    case MajorSynastry => 1.0
    case MinorSynastry => 0.5
  }

  /** Natal compares one chart with itself; synastry compares two charts. */
  datatype Mode = Natal | Synastry

  /** Only the major orb of a mode is used for matching. */
  function ModeOrb(mode: Mode): (orb: real)
    ensures mode == Natal ==> orb == Orb(MajorNatal)
    ensures mode == Synastry ==> orb == Orb(MajorSynastry)
    ensures 0.0 < orb < 15.0
  {
    match mode
    case Natal => Orb(MajorNatal)
    case Synastry => Orb(MajorSynastry)
  }

  datatype AspectClass = Hard | Soft

  /** One canonical aspect: its separation angle in degrees, name, class and symbol. */
  datatype AspectDef = AspectDef(angle: int, name: string, kind: AspectClass, symbol: string)

  /** The aspect table in iteration order. */
  const AspectTable: seq<AspectDef> := [
    AspectDef(0, "Conjunction", Hard, "\U{260C}"),
    AspectDef(30, "Semi-Sextile", Soft, "\U{26B9}"),
    AspectDef(60, "Sextile", Soft, "\U{26B9}"),
    AspectDef(90, "Square", Hard, "\U{25A1}"),
    AspectDef(120, "Trine", Soft, "\U{25B3}"),
    AspectDef(150, "Quincunx", Soft, "\U{26BB}"),
    AspectDef(180, "Opposition", Hard, "\U{260D}")
  ]

  /** The dimension tag a match carries. */
  function Dimension(kind: AspectClass): char
  {
    if kind == Hard then 'H' else 'S'
  }

  /** The canonical angles are 0, 30, ..., 180 in table order, and an aspect
      is Hard exactly when its angle is a multiple of 90. */
  lemma AspectTableShape()
    ensures |AspectTable| == 7
    ensures forall k :: 0 <= k < |AspectTable| ==> AspectTable[k].angle == 30 * k
    ensures forall k :: 0 <= k < |AspectTable| ==> (AspectTable[k].kind == Hard <==> AspectTable[k].angle % 90 == 0)
  {
  }

  /** Over the aspect table, the tag is 'H' for the Conjunction, Square and
      Opposition at 0, 90 and 180 degrees, and 'S' for the four others. */
  lemma DimensionOfTable()
    ensures forall k :: 0 <= k < |AspectTable| ==> (Dimension(AspectTable[k].kind) == 'H' <==> AspectTable[k].angle in {0, 90, 180})
    ensures forall k :: 0 <= k < |AspectTable| ==> (Dimension(AspectTable[k].kind) == 'S' <==> AspectTable[k].angle in {30, 60, 120, 150})
  {
  }
}

/** An optional value, used for the optional second chart. */
module Optional {
  datatype Option<+T> = None | Some(value: T)
}
