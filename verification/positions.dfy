/** Position resolution: one entry per roster body, with its longitude, a
    retrograde flag from a one-hour finite difference, and a display marker.
    The ephemeris itself is a parameter. */
module Positions {
  import opened Tables
  import opened Geometry

  /** An absolute UTC instant in seconds. */
  datatype Instant = Instant(utcSeconds: int)

  /** The instant the motion test samples a second time. */
  function OneHourLater(t: Instant): Instant
  {
    Instant(t.utcSeconds + 3600)
  }

  /** Apparent ecliptic longitude in degrees of a body at an instant, for the
      observer of the chart being resolved. */
  type Ephemeris = (Body, Instant) -> real

  ghost predicate EphemerisInRange(eph: Ephemeris)
  {
    forall b, t :: IsLongitude(eph(b, t))
  }

  /** One entry of a positions table. */
  datatype Placement = Placement(body: Body, longitude: real, isRetrograde: bool, rxSymbol: string)

  /** A positions table has at most one entry per body. */
  predicate DistinctBodies(ps: seq<Placement>)
  {
    forall i, j :: 0 <= i < j < |ps| ==> ps[i].body != ps[j].body
  }

  predicate IsLuminary(b: Body)
  {
    b == Sun || b == Moon
  }

  /** The bodies whose retrograde flag is reported. */
  predicate TracksMotion(b: Body)
  {
    !IsLuminary(b) && b != Chiron
  }

  /** The motion test of the planetary branch: the wrap-corrected change of
      longitude over the next hour is negative. */
  predicate MovesBackward(eph: Ephemeris, b: Body, t: Instant)
  {
    Retrograde(eph(b, t), eph(b, OneHourLater(t)))
  }

  /** Chiron's longitude: from the ephemeris when the minor-body source
      loaded, otherwise 0. */
  function ChironLongitude(eph: Ephemeris, t: Instant, chironReady: bool): real
  {
    if chironReady then eph(Chiron, t) else 0.0
  }

  /** The entry an iteration stores, given its body, its longitude and the
      value the iteration's retrograde variable holds at that point. */
  function Entry(b: Body, longitude: real, flag: bool): Placement
  {
    Placement(b, longitude,
              if b != Chiron && !IsLuminary(b) then flag else false,
              if !IsLuminary(b) && flag then "Rx" else "")
  }

  /** What the iteration for roster slot k stores, stated without the loop:
      Chiron's slot sees the retrograde variable as the previous slot left it. */
  function SlotEntry(eph: Ephemeris, t: Instant, chironReady: bool, k: nat): Placement
    requires k < |Roster|
  {
    var b := Roster[k];
    if b == Chiron then Entry(b, ChironLongitude(eph, t, chironReady), k > 0 && MovesBackward(eph, Roster[k - 1], t))
    else Entry(b, eph(b, t), MovesBackward(eph, b, t))
  }

  /** Chiron is the last roster body and Pluto comes right before it. */
  lemma ChironFollowsPluto(k: nat)
    requires k < |Roster| && Roster[k] == Chiron
    ensures k == 10 && Roster[k - 1] == Pluto
  {
    RosterListsEachBodyOnce(Chiron);
    assert Roster[10] == Chiron;
  }

  /** The slot entries, read as a table: bodies in roster order, each with
      its longitude, flag and marker. */
  lemma SlotEntriesDescribeRoster(eph: Ephemeris, t: Instant, chironReady: bool)
    ensures forall i, j :: 0 <= i < j < |Roster| ==> SlotEntry(eph, t, chironReady, i).body != SlotEntry(eph, t, chironReady, j).body
    ensures forall k :: 0 <= k < |Roster| ==> SlotFacts(eph, t, chironReady, SlotEntry(eph, t, chironReady, k), k)
  {
    RosterListsEachBodyOnce(Sun);
    forall k | 0 <= k < |Roster|
      ensures SlotFacts(eph, t, chironReady, SlotEntry(eph, t, chironReady, k), k)
    {
      if Roster[k] == Chiron {
        ChironFollowsPluto(k);
      }
    }
  }

  /** What the resolved entry for roster slot k says. */
  predicate SlotFacts(eph: Ephemeris, t: Instant, chironReady: bool, p: Placement, k: nat)
    requires k < |Roster|
  {
    && p.body == Roster[k]
    && (p.body != Chiron ==> p.longitude == eph(p.body, t))
    && (p.body == Chiron ==> p.longitude == if chironReady then eph(Chiron, t) else 0.0)
    && (p.isRetrograde <==> TracksMotion(p.body) && MovesBackward(eph, p.body, t))
    && (p.rxSymbol == "Rx" || p.rxSymbol == "")
    && (IsLuminary(p.body) ==> p.rxSymbol == "")
    && (TracksMotion(p.body) ==> (p.rxSymbol == "Rx" <==> p.isRetrograde))
    && (p.body == Chiron ==> (p.rxSymbol == "Rx" <==> MovesBackward(eph, Pluto, t)))
  }

  /** Putting slot k's entry in front of the entries of slots k + 1 on gives
      the entries of slots k on. */
  lemma PrependSlot(eph: Ephemeris, t: Instant, chironReady: bool, k: nat, head: Placement, tail: seq<Placement>)
    requires k < |Roster| && head == SlotEntry(eph, t, chironReady, k)
    requires |tail| == |Roster| - k - 1
    requires forall i :: 0 <= i < |tail| ==> tail[i] == SlotEntry(eph, t, chironReady, k + 1 + i)
    ensures forall i :: 0 <= i < |[head] + tail| ==> ([head] + tail)[i] == SlotEntry(eph, t, chironReady, k + i)
  {
    forall i | 0 <= i < |[head] + tail|
      ensures ([head] + tail)[i] == SlotEntry(eph, t, chironReady, k + i)
    {
      if i > 0 {
        assert ([head] + tail)[i] == tail[i - 1];
      }
    }
  }

  /** The roster walk from slot k on; `flag` is the retrograde variable as
      the previous iteration left it. */
  function ResolveFrom(eph: Ephemeris, t: Instant, chironReady: bool, k: nat, flag: bool): (r: seq<Placement>)
    requires k <= |Roster|
    requires 0 < k < |Roster| ==> flag == MovesBackward(eph, Roster[k - 1], t)
    ensures |r| == |Roster| - k
    ensures forall i :: 0 <= i < |r| ==> r[i] == SlotEntry(eph, t, chironReady, k + i)
    decreases |Roster| - k
  {
    if k == |Roster| then []
    else
      var b := Roster[k];
      if b == Chiron then
        ChironFollowsPluto(k);
        var head := Entry(b, ChironLongitude(eph, t, chironReady), flag);
        var tail := ResolveFrom(eph, t, chironReady, k + 1, flag);
        PrependSlot(eph, t, chironReady, k, head, tail);
        [head] + tail
      else
        var moved := MovesBackward(eph, b, t);
        var head := Entry(b, eph(b, t), moved);
        var tail := ResolveFrom(eph, t, chironReady, k + 1, moved);
        PrependSlot(eph, t, chironReady, k, head, tail);
        [head] + tail
  }

  /** The positions of every roster body at instant t. `chironReady` says
      whether the minor-body ephemeris loaded. The retrograde variable is
      unbound before the walk; the Sun comes first and sets it, so the
      initial value passed here is never read. */
  function ResolvePositions(eph: Ephemeris, t: Instant, chironReady: bool): (r: seq<Placement>)
    ensures |r| == |Roster| && DistinctBodies(r)
    ensures forall k :: 0 <= k < |r| ==> r[k].body == Roster[k]
    ensures forall k :: 0 <= k < |r| && r[k].body != Chiron ==> r[k].longitude == eph(r[k].body, t)
    ensures forall k :: 0 <= k < |r| && r[k].body == Chiron ==> r[k].longitude == if chironReady then eph(Chiron, t) else 0.0
    ensures forall k :: 0 <= k < |r| ==> (r[k].isRetrograde <==> TracksMotion(r[k].body) && MovesBackward(eph, r[k].body, t))
    ensures forall k :: 0 <= k < |r| ==> r[k].rxSymbol == "Rx" || r[k].rxSymbol == ""
    ensures forall k :: 0 <= k < |r| && IsLuminary(r[k].body) ==> r[k].rxSymbol == ""
    ensures forall k :: 0 <= k < |r| && TracksMotion(r[k].body) ==> (r[k].rxSymbol == "Rx" <==> r[k].isRetrograde)
    ensures forall k :: 0 <= k < |r| && r[k].body == Chiron ==> (r[k].rxSymbol == "Rx" <==> MovesBackward(eph, Pluto, t))
  {
    SlotEntriesDescribeRoster(eph, t, chironReady);
    ResolveFrom(eph, t, chironReady, 0, false)
  }

  /** With an ephemeris that reports longitudes, every resolved longitude is
      one, the 0-degree fallback included. */
  lemma ResolvedLongitudesInRange(eph: Ephemeris, t: Instant, chironReady: bool)
    requires EphemerisInRange(eph)
    ensures forall p :: p in ResolvePositions(eph, t, chironReady) ==> IsLongitude(p.longitude)
  {
    var r := ResolvePositions(eph, t, chironReady);
    forall p | p in r
      ensures IsLongitude(p.longitude)
    {
      var k :| 0 <= k < |r| && r[k] == p;
      assert IsLongitude(eph(p.body, t));
    }
  }

  /** An ephemeris under which Pluto drifts backward over the hour after t = 0
      and every other body stands still. */
  function PlutoBackward(): Ephemeris
  {
    (b: Body, u: Instant) => if b == Pluto && u.utcSeconds > 0 then 10.0 else 20.0
  }

  /** Chiron's entry shows the "Rx" marker although its retrograde flag is
      false, because the marker reads the flag Pluto's iteration left behind. */
  lemma ChironMarkerFollowsPluto()
    ensures var r := ResolvePositions(PlutoBackward(), Instant(0), false);
      && r[10].body == Chiron
      && !r[10].isRetrograde
      && r[10].rxSymbol == "Rx"
  {
    var r := ResolvePositions(PlutoBackward(), Instant(0), false);
    assert MovesBackward(PlutoBackward(), Pluto, Instant(0));
    assert r[10].body == Chiron;
  }

  /** The positions with each marker derived from the entry's own flag, so
      that Chiron's marker stays empty. */
  function ResolvePositionsCorrected(eph: Ephemeris, t: Instant, chironReady: bool): (r: seq<Placement>)
    ensures |r| == |Roster| && DistinctBodies(r)
    ensures forall k :: 0 <= k < |r| ==> r[k].body == Roster[k]
    ensures forall k :: 0 <= k < |r| && r[k].body != Chiron ==> r[k].longitude == eph(r[k].body, t)
    ensures forall k :: 0 <= k < |r| && r[k].body == Chiron ==> r[k].longitude == if chironReady then eph(Chiron, t) else 0.0
    ensures forall k :: 0 <= k < |r| ==> (r[k].isRetrograde <==> TracksMotion(r[k].body) && MovesBackward(eph, r[k].body, t))
    ensures forall k :: 0 <= k < |r| ==> (r[k].rxSymbol == "Rx" <==> r[k].isRetrograde)
    ensures forall k :: 0 <= k < |r| ==> (r[k].rxSymbol == "" <==> !r[k].isRetrograde)
  {
    var w := ResolvePositions(eph, t, chironReady);
    seq(|w|, k requires 0 <= k < |w| => w[k].(rxSymbol := if w[k].isRetrograde then "Rx" else ""))
  }

  /** The correction changes nothing but Chiron's marker. */
  lemma CorrectionOnlyTouchesChiron(eph: Ephemeris, t: Instant, chironReady: bool)
    ensures var w := ResolvePositions(eph, t, chironReady);
      var r := ResolvePositionsCorrected(eph, t, chironReady);
      forall k :: 0 <= k < |r| && r[k].body != Chiron ==> r[k] == w[k]
  {
  }
}
