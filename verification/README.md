# Magi astrology position and aspect engine

A Dafny model of the computational core of the `magi-astro` service. The
service resolves a birth chart into a table of body placements. Each placement
holds an ecliptic longitude, a retrograde flag and an "Rx" display marker. The
service then searches one chart (natal mode) or two charts (synastry mode) for
aspects. An aspect is a pair of bodies whose angular separation lies within an
orb of one of seven canonical angles. The resulting records are sorted by
angle, then by the names of the two bodies.

Modules:

- `Tables`: the body roster, the orb policy and the aspect table. It also holds
  Python's string order on body names, with a rank function proved to agree
  with it.
- `Geometry`: circular arithmetic. It defines the minor-arc separation and the
  wrap-corrected one-hour change of longitude behind the retrograde test.
- `Positions`: position resolution, with the ephemeris as a parameter. It is
  modelled twice, once as the source is written and once corrected (see
  Findings).
- `Pairs`: the nested loops that pick which index pairs are compared.
- `Matches`: matching one pair against the aspect table.
- `MatchOrder`: the sort key and a stable insertion sort.
- `AspectEngine`: the aspect search, assembled from the modules above.
- `EngineExamples`: worked cases on small charts.

Positions tables are modelled as sequences of `Placement` in insertion order.
This is the order a Python dict is iterated in. The ephemeris is a function
`(Body, Instant) -> real` giving apparent longitude in degrees. Minor-body
availability is a boolean `chironReady`. Longitudes are exact `real`s.

Where the code departs from the service's intended behaviour, the model
follows the code, with one exception: Chiron's ready branch, which the model
gives its intended result (see "Left out").

- Every entry is meant to carry the marker "Rx" exactly when its own flag is
  set. The code gives Chiron the marker of the retrograde test Pluto left
  behind; see Findings.
- The one-hour second sample is needed only for the bodies whose flag is
  reported. The code samples the Sun and the Moon too and then discards the
  result. `ResolvePositions` computes their motion test as well; nothing
  reads it.
- A 0-degree fallback for a failed ephemeris query exists in the code for
  Chiron only, so the model has it for Chiron only.
- An unknown body is skipped silently by the code rather than reported as an
  error, and no roster body reaches that branch.
- Longitudes are meant to lie in [0, 360), but the code does not normalise
  them. `ResolvedLongitudesInRange` therefore assumes the ephemeris reports
  values in that range.

## Model

| member | source | states |
|---|---|---|
| Tables.RosterListsEachBodyOnce | magi-astro/astro.py:60 | Every body of the roster is listed in it, and no body is listed twice. |
| Tables.NameRankOrdersNames | magi-astro/astro.py:211-212 | Comparing two bodies' alphabetical ranks gives the same answer as comparing their names as Python strings. Equal ranks mean the same body. |
| Tables.ModeOrb | magi-astro/astro.py:62-67 | Natal matching uses the Major_Natal orb (3.0) and synastry the Major_Synastry orb (1.0). Both lie strictly between 0 and 15 degrees. |
| Tables.DimensionOfTable | magi-astro/astro.py:68-77 | Over the aspect table, the tag is 'H' exactly for the angles 0, 90 and 180, and 'S' exactly for 30, 60, 120 and 150. |
| Tables.AspectTableShape | magi-astro/astro.py:68-77 | The table has seven entries at 0, 30, ..., 180 degrees, in that order. An entry is Hard exactly when its angle is a multiple of 90. |
| Geometry.Separation | magi-astro/astro.py:189-191 | For two longitudes, the separation lies in [0, 180]. |
| Geometry.SeparationSymmetric | magi-astro/astro.py:189-191 | The separation does not depend on which body comes first. |
| Geometry.SeparationIsMinorArc | magi-astro/astro.py:189-191 | The separation is the shortest arc: no longer than the difference shifted by any whole number of turns, and equal to one of those shifts. |
| Geometry.WrapDelta | magi-astro/astro.py:138-143 | For longitudes, the corrected one-hour change lies in [-180, 180]. It differs from the raw change by -360, 0 or 360. |
| Geometry.WrapDeltaIsUnique | magi-astro/astro.py:138-143 | The corrected change is the only value in (-180, 180) that differs from the raw change by a whole number of turns. |
| Geometry.WrapDeltaMagnitude | magi-astro/astro.py:138-145 | For longitudes, the size of the corrected change equals the minor-arc separation of the two samples. |
| Geometry.WrapDeltaExamples | magi-astro/astro.py:138-145 | Going from 359.8 to 0.3 is forward motion across 0. Going from 100 to 99.5, or from 0.3 to 359.8, is retrograde. |
| Positions.ResolvePositions | magi-astro/astro.py:95-154 | The table has one entry per roster body, in roster order, with no repeats. Longitudes come from the ephemeris, and Chiron's falls back to 0 when the minor-body source is missing. The retrograde flag is set exactly for bodies other than Sun, Moon and Chiron that move backward over the hour. Sun and Moon never get a marker. Other planets get "Rx" exactly when flagged. Chiron's marker is "Rx" exactly when Pluto moves backward. |
| Positions.ResolvedLongitudesInRange | magi-astro/astro.py:109-123 | When the ephemeris reports values in [0, 360), every resolved longitude is in [0, 360), including the 0-degree fallback. |
| Positions.ChironMarkerFollowsPluto | magi-astro/astro.py:145-152 | Under an ephemeris where only Pluto drifts backward, Chiron's entry is not retrograde yet carries "Rx". |
| Positions.ResolvePositionsCorrected | magi-astro/astro.py:149-153 | Same as ResolvePositions, except that every entry's marker is "Rx" exactly when its own retrograde flag is set, and "" otherwise. |
| Positions.CorrectionOnlyTouchesChiron | magi-astro/astro.py:149-153 | The correction leaves every entry other than Chiron's unchanged. |
| Pairs.CandidatesExactlyOnce | magi-astro/astro.py:181-184 | Each index pair allowed by the loop bounds is visited exactly once, and nothing else is visited. In natal mode, only pairs (i, j) with i < j are visited, so the reverse pair never is. |
| Pairs.CandidateCounts | magi-astro/astro.py:181-184 | Natal mode over n bodies visits n(n-1)/2 pairs. Synastry over n and m bodies visits n*m pairs. |
| Matches.PairMatchesIff | magi-astro/astro.py:193-209 | A pair produces a record exactly when some table entry's angle is within the orb of the pair's separation. That record is the entry's record. |
| Matches.PairMatchesEntry | magi-astro/astro.py:194-197 | For each table entry, the pair produces its record exactly when the deviation from its angle is at most the orb. |
| Matches.RecordFields | magi-astro/astro.py:198-208 | A produced record carries: a table entry's angle, name, class and symbol; the orb; the two bodies in order; and its true deviation, which lies in [0, orb]. Its tag is 'H' exactly for angles that are multiples of 90. |
| Matches.SingleMatch | magi-astro/astro.py:193-209 | A pair within the orb of entry k's angle produces that entry's record and nothing else. |
| Matches.NoMatch | magi-astro/astro.py:193-209 | A pair whose separation is within the orb of no canonical angle produces nothing. |
| Matches.AtMostOneMatchPerPair | magi-astro/astro.py:69-77 | With the canonical angles 30 degrees apart and an orb below 15, a pair produces at most one record. |
| MatchOrder.KeyLessIsPythonOrder | magi-astro/astro.py:212 | The rank-based key order is exactly Python's order on (angle, first name, second name) tuples. |
| MatchOrder.Insert | magi-astro/astro.py:212 | Inserting into a sorted list keeps it sorted, and the result holds exactly the old elements plus the new one. |
| MatchOrder.SortByKey | magi-astro/astro.py:212 | The result is sorted by the key and is a permutation of the input. |
| MatchOrder.SortStrict | magi-astro/astro.py:212 | When no two records share a key, the sorted result is strictly ascending. |
| MatchOrder.StrictlySortedUnique | magi-astro/astro.py:212 | Two strictly ascending lists with the same elements are equal. |
| AspectEngine.CalculateAspects | magi-astro/astro.py:156-213 | The result is sorted by key and is a permutation of the records the search appends. Every record carries the mode's orb and a deviation within [0, orb]. Its tag is 'H' exactly for Hard aspects, which are the multiples of 90. |
| AspectEngine.RecordsCarryOrb | magi-astro/astro.py:178-208 | Any arrangement of the appended records holds only records with the mode's orb, a deviation within [0, orb], and the tag 'H' exactly for the Hard angles 0, 90 and 180. |
| AspectEngine.CalculateAspectsIff | magi-astro/astro.py:165-209 | A record is in the result exactly when some visited pair produces it under the mode's orb. |
| AspectEngine.AspectEmittedIff | magi-astro/astro.py:186-209 | For a visited pair and a table entry, the entry's record is in the result exactly when the pair's separation is within the orb of the entry's angle. |
| AspectEngine.AspectsStrictlyOrdered | magi-astro/astro.py:211-213 | When each chart lists each body at most once, no two records share a key, so the result is strictly ascending. |
| AspectEngine.AspectOrderDetermined | magi-astro/astro.py:211-213 | Under the same condition, the result is the only strictly ascending arrangement of the appended records. |
| AspectEngine.PairOfEmitted | magi-astro/astro.py:181-209 | Every appended record comes from a visited pair whose bodies it names, first chart's body first. |
| AspectEngine.PairOfRecord | magi-astro/astro.py:181-187 | Every record in the result comes from a visited pair whose bodies it names, first chart's body first. |
| AspectEngine.NatalNeverPairsBodyWithItself | magi-astro/astro.py:183-184 | In natal mode over a chart with distinct bodies, no record pairs a body with itself. |
| AspectEngine.NatalListsEachPairOneWay | magi-astro/astro.py:183-184 | In natal mode over a chart with distinct bodies, no two records name the same two bodies in opposite orders. |
| AspectEngine.NothingToCompare | magi-astro/astro.py:162-184 | An empty chart, a one-body natal chart or an empty second chart yields an empty result. |
| AspectEngine.RosterPairCounts | magi-astro/astro.py:60 | Over the eleven-body roster, natal mode visits 55 pairs and synastry 121. |
| AspectEngine.FullChartsCompare | magi-astro/astro.py:181-213 | For two charts that each list eleven distinct bodies, natal mode visits 55 pairs and synastry 121, and both results are strictly ascending. |
| AspectEngine.ResolvedChartsCompare | magi-astro/astro.py:109-153 | Charts resolved over the full roster, as the source is written, meet the conditions above: natal mode visits 55 pairs and synastry 121, and both results are strictly ascending. |
| AspectEngine.MatchesOverReadsSky | magi-astro/astro.py:186-209 | Matching the same pairs over two tables that agree on bodies and longitudes, index by index, gives the same records. |
| AspectEngine.SkyDeterminesAspects | magi-astro/astro.py:156-213 | The search result depends only on the charts' bodies and longitudes, not on retrograde flags or markers. |
| AspectEngine.CorrectionKeepsAspects | magi-astro/astro.py:149-213 | Natal and synastry searches over charts from the corrected resolver give the same records as over charts resolved as the source is written. |
| EngineExamples.TwoBodyNatalVisitsOnePair | magi-astro/astro.py:181-184 | A two-body natal chart visits only the pair (0, 1). |
| EngineExamples.OneByOneSynastryVisitsOnePair | magi-astro/astro.py:181-184 | One body against one body visits only the pair (0, 0). |
| EngineExamples.NatalPairEmits | magi-astro/astro.py:181-209 | A two-body natal chart appends exactly the records of its one pair, under orb 3. |
| EngineExamples.SynastryPairEmits | magi-astro/astro.py:181-209 | One body against one body appends exactly the records of that pair, under orb 1. |
| EngineExamples.SquareWithinNatalOrb | magi-astro/astro.py:186-212 | Sun at 10 and Moon at 100.2 in one chart give exactly one Square, 0.2 degrees off, with orb 3 and tag 'H'. |
| EngineExamples.ExactTrineNatal | magi-astro/astro.py:186-212 | An exact 120-degree separation is one Trine with deviation 0 under the natal orb. |
| EngineExamples.ExactTrineSynastry | magi-astro/astro.py:186-212 | The same exact Trine found between two charts carries the synastry orb 1. |
| EngineExamples.SynastryOrbIsTighter | magi-astro/astro.py:165-178 | A separation 1.5 degrees off a Square is an aspect within one chart but not between two. |
| EngineExamples.OffSquarePair | magi-astro/astro.py:193-197 | A separation of 91.5 matches one entry under orb 3 and none under orb 1. |
| EngineExamples.FarAcrossZero | magi-astro/astro.py:189-197 | Longitudes 359 and 1 are 2 degrees apart across 0, too far for the synastry orb. |
| EngineExamples.ConjunctionAcrossZero | magi-astro/astro.py:189-197 | Longitudes 359.5 and 0.3 are a Conjunction 0.8 degrees off, across 0. |

## Left out

- The ephemeris libraries (astro.py:81-93, 111-136): pyephem's per-body objects and the skyfield observation are replaced by the `Ephemeris` parameter. The model does not check which longitude the libraries return. At line 123 that is `hlong`, a heliocentric value despite the comment; at line 114 `observer.at` is called on a pyephem observer.
- Positions.ResolvePositions: Chiron's ready branch (astro.py:112-115) is not modelled as written. The code calls `observer.at(t)` on the `ephem.Observer` created at astro.py:45. Such an observer has no `at` method and nothing around the call catches the error, so when the minor-body source has loaded, `calculate_positions` raises instead of returning. The model leaves that failure out and gives Chiron the ephemeris longitude there, the value the branch is evidently meant to compute. Only the fallback branch (source not loaded) matches the code as written.
- Local-time parsing and the timezone shift (astro.py:103-106, 127-131): the chart instant is an `Instant` in UTC seconds, and the one-hour offset is `OneHourLater`.
- The observer's latitude and longitude (astro.py:100-101): the chart's location is folded into the per-chart `Ephemeris`, which gives longitudes as seen by that chart's observer.
- Loading the ephemeris file at module import and the shared mutable observer (astro.py:44-57): the model keeps only their effect, the `chironReady` flag.
- The Chiron warning message (astro.py:118) is output only.
- The `continue` for a body with no pyephem object (astro.py:146-147) cannot be reached: every roster body except Chiron has one, and Chiron takes the other branch.
- The retrograde variable is unbound before the roster walk. The Sun comes first and sets it before any read, so the model starts it at an arbitrary value that is never observed.
- The Minor_Natal and Minor_Synastry orbs are defined but no code path uses them. They appear in `Tables.Orb` only.
- Floating point: longitudes, separations and deviations are exact reals, so rounding near an orb boundary is not modelled.
- A positions table given to the search is any sequence of placements. Python dicts cannot repeat a key; the model assumes distinct bodies only in the lemmas that need it.
- MatchOrder.SortByKey: stability is not stated. Python's sort is stable, and the model's insertion sort inserts ahead of equal keys. For charts with distinct bodies no two records share a key, and `AspectEngine.AspectOrderDetermined` shows the order is then fully determined.
- The Flask route and the text report (astro.py:215-264), and `your_main_script.py`, a separate Flask service with a health check and a Moon alt/az endpoint, are not part of this model.

## Findings

| source | as written | input that shows it | evidently intended | confidence | as-written member | corrected member |
|---|---|---|---|---|---|---|
| magi-astro/astro.py:152 | Chiron's `Rx_symbol` tests the `is_retrograde` variable, which Chiron's branch never assigns, so it holds Pluto's result from the previous iteration. | Any chart where Pluto's longitude decreases over the hour, e.g. an ephemeris giving Pluto 20 at t and 10 an hour later: Chiron gets `is_retrograde` False and `Rx_symbol` "Rx". The program as it stands cannot show this: line 123 reads `hlong`, a heliocentric longitude, and Pluto's never decreases; and when the minor-body source has loaded, line 114 raises before Chiron's entry is stored. The wrong marker appears once the longitude is geocentric, as the comment at line 123 intends. | Chiron's marker agrees with its own flag, which is always False, so the marker is "". | high; not executed | Positions.ChironMarkerFollowsPluto | Positions.ResolvePositionsCorrected |

`AspectEngine.ResolvedChartsCompare` composes the search with the resolver
as written. `AspectEngine.CorrectionKeepsAspects` proves that the natal and
synastry records are the same with the corrected resolver, so the
correction changes no aspect record.
