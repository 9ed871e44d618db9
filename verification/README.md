# Sections of a subway line

This project models the `Sections` component of a subway-line service in
Dafny. A line keeps its sections in a mutable list. A section is a directed,
weighted link from an up station to a down station. The line's station order
is never stored: it is rebuilt on every request. The rebuild walks backwards
from the first listed section to the upper end of the line, then forwards
through the sections leaving each station. Adding a section splices a new
station in next to an existing one. Removing a station either drops an end
station's only section or bridges an interior station's two sections with
one section.

The model has three modules:

- `Topology` (`topology.dfy`) holds the values:
  - stations, sections, errors and outcomes;
  - the first-match lookups over the section list;
  - the validation of a new section;
  - list removal by index;
  - the sections that avoid a station, and the total distance of those that
    touch it.
- `Chain` (`chain.dfy`) holds the invariant of a line and the lemmas about
  it. `IsChain(ss, p)` says that the sections `ss` form one simple chain
  along the station order `p`:
  - `p` has one station more than `ss` has sections and repeats none;
  - every section joins two consecutive stations of `p`, and every
    consecutive pair is joined by a section;
  - no two sections leave the same station.
- `SubwayLine` (`sections.dfy`) holds the class `Sections`. The class has the
  section list as a `seq` field that its methods reassign, and a ghost field
  `Path` for the station order. `Valid()` ties `Path` to the list through
  `IsChain`. Every method is proved against `Path`:
  - `GetStations` returns exactly `Path`;
  - `AddSection` and `RemoveLineStation` state the new `Path` and the new
    list, and keep `Valid()`.

Stations are compared by identity in the source, so a station is an integer
identifier here. The failures that the source raises as exceptions become
`Fail(...)` outcomes, and a failure leaves the line unchanged.

## Model

| member | source | states |
|---|---|---|
| Topology.SameUpStationSection | src/main/java/nextstep/subway/line/domain/Sections.java:107-111 | The result is the first index whose section leaves the station, or none exactly when no section leaves it. |
| Topology.SameDownStationSection | src/main/java/nextstep/subway/line/domain/Sections.java:113-117 | The result is the first index whose section enters the station, or none exactly when no section enters it. |
| Topology.IsStationExisted | src/main/java/nextstep/subway/line/domain/Sections.java:143-145 | True exactly when the station occurs in the list. |
| Topology.Validate | src/main/java/nextstep/subway/line/domain/Sections.java:133-141 | Both endpoints on the line is refused as already registered. Neither endpoint on a non-empty line is refused as not connectable. Every other case passes. Each case holds in both directions. |
| Topology.Int32 | src/main/java/nextstep/subway/line/domain/Sections.java:99 | The bridging distance as a Java `int` holds it: the result lies in the 32-bit two's-complement range, and a sum already in that range is kept as it is. |
| Topology.Int32Congruent | src/main/java/nextstep/subway/line/domain/Sections.java:99 | The wrapped sum differs from the exact sum by a whole multiple of 2^32, so it is the two's-complement wrap-around and not some other value in range. |
| Topology.RemoveAt | src/main/java/nextstep/subway/line/domain/Sections.java:103-104 | Removing one element shortens the list by one and shifts the elements after it down by one, leaving those before it alone. |
| Topology.TouchingPair | src/main/java/nextstep/subway/line/domain/Sections.java:99 | When exactly two sections touch a station, the total distance of the touching sections is the sum of those two. |
| Chain.Without | src/main/java/nextstep/subway/line/domain/Sections.java:88-105 | The order without a station it does not contain is unchanged; otherwise it is one station shorter. |
| Chain.WithoutAt | src/main/java/nextstep/subway/line/domain/Sections.java:88-105 | In an order without repeats, taking out the station at position `k` leaves the stations before and after `k`, spliced together. |
| Chain.SectionAt | src/main/java/nextstep/subway/line/domain/Sections.java:52-72 | Every section of a chain joins the stations at some positions `k` and `k + 1`. |
| Chain.UpMatchOnChain | src/main/java/nextstep/subway/line/domain/Sections.java:61-69 | On a chain, a section leaves the station at position `k` exactly when it is not the last, and the first such section leads to position `k + 1`. This is the forward step of the walk. |
| Chain.DownMatchOnChain | src/main/java/nextstep/subway/line/domain/Sections.java:76-83 | On a chain, a section enters the station at position `k` exactly when it is not the first, and the first such section comes from position `k - 1`. This is the backward step of the walk. |
| Chain.OffChain | src/main/java/nextstep/subway/line/domain/Sections.java:93-104 | A station that is not in the order touches no section, so removing it finds nothing. |
| Chain.TouchingOnChain | src/main/java/nextstep/subway/line/domain/Sections.java:93-94 | A section touching the station at position `k` either leaves it for position `k + 1` or enters it from position `k - 1`. |
| Chain.ChainEnds | src/main/java/nextstep/subway/line/domain/Sections.java:74-86 | No section enters the first station of a chain, and no section leaves its last station. |
| Chain.ChainUnique | src/main/java/nextstep/subway/line/domain/Sections.java:52-72 | A non-empty list of sections is a chain along at most one station order, so the order the walk rebuilds is determined by the list. |
| Chain.ChainSeed | src/main/java/nextstep/subway/line/domain/Sections.java:21-24 | One section between two different stations is a chain along those two stations. |
| Chain.ChainSplit | src/main/java/nextstep/subway/line/domain/Sections.java:39-45 | Splitting the section between positions `k` and `k + 1` at a new station gives a chain along the order with the station inserted. The split section is replaced by one half and the other half is appended, in either order. |
| Chain.SplitOrder | src/main/java/nextstep/subway/line/domain/Sections.java:39-45 | Inserting a station that is not on the line right after position `k` keeps the stations up to `k`, puts the new one at `k + 1`, shifts the rest up by one, and repeats no station. |
| Chain.SplitPlaced | src/main/java/nextstep/subway/line/domain/Sections.java:39-45 | After the split, every section joins two consecutive stations of the new order. |
| Chain.SplitJoined | src/main/java/nextstep/subway/line/domain/Sections.java:39-45 | After the split, every consecutive pair of the new order is joined by a section. |
| Chain.SplitUpsDistinct | src/main/java/nextstep/subway/line/domain/Sections.java:39-45 | After the split, no two sections leave the same station. |
| Chain.ChainMerge | src/main/java/nextstep/subway/line/domain/Sections.java:96-104 | The sections that avoid an interior station, followed by one section from its predecessor to its successor, are a chain along the order without that station. |
| Chain.MergeOrder | src/main/java/nextstep/subway/line/domain/Sections.java:96-104 | Taking out the station at position `k` keeps the stations before `k`, shifts those after it down by one, and repeats no station. |
| Chain.MergePlaced | src/main/java/nextstep/subway/line/domain/Sections.java:96-104 | After the merge, every section joins two consecutive stations of the order without the station. |
| Chain.MergeJoined | src/main/java/nextstep/subway/line/domain/Sections.java:96-104 | After the merge, every consecutive pair of the order without the station is joined by a section. |
| Chain.MergeUpsDistinct | src/main/java/nextstep/subway/line/domain/Sections.java:96-104 | After the merge, no two sections leave the same station. |
| Chain.InsertAfterOnChain | src/main/java/nextstep/subway/line/domain/Sections.java:39-41 | After the up station is found at position `k`, the first section leaving it, if any, now leaves the new station. The new section is appended. The list is then a chain along the order with the new station right after position `k`. No other section changes. |
| Chain.InsertAfterInterior | src/main/java/nextstep/subway/line/domain/Sections.java:39-41 | When a section leaves the up station, rewriting it to leave the new station and appending the new section gives the chain with the new station right after the up station. Only that section is rewritten. |
| Chain.InsertAfterTail | src/main/java/nextstep/subway/line/domain/Sections.java:39-41 | When the up station is the last station, no section is rewritten, and appending the new section extends the chain at its end. |
| Chain.InsertBeforeOnChain | src/main/java/nextstep/subway/line/domain/Sections.java:43-45 | After the down station is found at position `k`, the first section entering it, if any, now enters the new station. The new section is appended. The list is then a chain along the order with the new station right before position `k`. No other section changes. |
| Chain.InsertBeforeHead | src/main/java/nextstep/subway/line/domain/Sections.java:43-45 | When the down station is the first station, no section is rewritten, and appending the new section extends the chain at its start. |
| Chain.InsertBeforeInterior | src/main/java/nextstep/subway/line/domain/Sections.java:43-45 | When a section enters the down station, rewriting it to enter the new station and appending the new section gives the chain with the new station right before the down station. Only that section is rewritten. |
| Chain.InteriorNeighbours | src/main/java/nextstep/subway/line/domain/Sections.java:93-94 | At an interior station both lookups succeed, on two different sections: one leaving to the successor and one entering from the predecessor. No other section touches the station. |
| Chain.InteriorShaped | src/main/java/nextstep/subway/line/domain/Sections.java:93-104 | At an interior station of a chain, both lookups succeed on two different sections, one from the predecessor and one to the successor. Their distances make up the total distance touching the station. Appending the bridge and removing the two found sections leaves the untouched sections followed by the bridge. |
| Chain.InteriorShapeOf | src/main/java/nextstep/subway/line/domain/Sections.java:96-104 | The same facts follow from the two lookups alone, when they find different sections and no other section touches the station. The bridge's distance is the 32-bit sum of the two found distances. |
| Chain.RemoveInteriorOnChain | src/main/java/nextstep/subway/line/domain/Sections.java:96-104 | The same list result as above, and that result is a chain along the order without the station. |
| Chain.RemoveFirstOnChain | src/main/java/nextstep/subway/line/domain/Sections.java:93-104 | At the first station of a line of two or more sections, only the forward lookup succeeds. Dropping its section leaves the sections avoiding the station, a chain along the rest of the order. |
| Chain.RemoveLastOnChain | src/main/java/nextstep/subway/line/domain/Sections.java:93-104 | At the last station, only the backward lookup succeeds. Dropping its section leaves the sections avoiding the station, a chain along the order without its last station. |
| Chain.SelfLoopSeed | src/main/java/nextstep/subway/line/domain/Sections.java:32-36 | On an empty line, a section from a station to itself passes validation. The line it would seed is a chain along no order. The backward walk's lookup then leads from the station back to itself. |
| SubwayLine.Sections.constructor | src/main/java/nextstep/subway/line/domain/Sections.java:18-19 | A new line has no sections and an empty order. |
| SubwayLine.Sections.Seeded | src/main/java/nextstep/subway/line/domain/Sections.java:21-24 | A line built from one section holds that section, with the order up station then down station. |
| SubwayLine.Sections.FindUpStation | src/main/java/nextstep/subway/line/domain/Sections.java:74-86 | The backward walk from the first listed section's up station ends at the first station of the order, which no section enters. |
| SubwayLine.Sections.GetStations | src/main/java/nextstep/subway/line/domain/Sections.java:52-72 | The forward walk returns the line's station order. It is empty exactly when there are no sections; otherwise the sections form a chain along it. |
| SubwayLine.Sections.UpdateUpStation | src/main/java/nextstep/subway/line/domain/Sections.java:126-131 | Only the first section leaving the given station is rewritten, to leave the new station with the rewritten distance. With no such section, the list is unchanged. |
| SubwayLine.Sections.UpdateDownStation | src/main/java/nextstep/subway/line/domain/Sections.java:119-124 | Only the first section entering the given station is rewritten, to enter the new station with the rewritten distance. With no such section, the list is unchanged. |
| SubwayLine.Sections.AddSection | src/main/java/nextstep/subway/line/domain/Sections.java:26-50 | Each refusal, with the line unchanged: both endpoints already on the line, neither endpoint on a non-empty line, or a first section joining a station to itself. Each holds in both directions. The fallback failure is never returned. Otherwise the new section is appended, and the order gains the down station right after the up station, or the up station right before the down station. The neighbouring section's endpoint and distance are rewritten, and the invariant is kept. |
| SubwayLine.Sections.RemoveLineStation | src/main/java/nextstep/subway/line/domain/Sections.java:88-105 | A line of at most one section is refused, unchanged, and that is the only failure. Otherwise the order loses the station. A station not on the line leaves the sections as they are. An end station's one section is dropped. An interior station's two sections become one, from its predecessor to its successor, whose distance is the sum of the two, wrapped to 32 bits as a Java `int`. The invariant is kept. |
| SubwayLine.RemovalOnChain | src/main/java/nextstep/subway/line/domain/Sections.java:93-104 | The lookups, the append and the two removals, applied to a chain of two or more sections, leave a chain along the order without the station, as described for `RemoveLineStation`. |
| SubwayLine.RemovalInterior | src/main/java/nextstep/subway/line/domain/Sections.java:96-104 | For an interior station the removal steps leave the sections avoiding it followed by the bridge from its predecessor to its successor, whose distance is the wrapped total of the two sections it replaces. The list has one section fewer than before. |
| SubwayLine.InteriorChain | src/main/java/nextstep/subway/line/domain/Sections.java:96-104 | That result is a chain along the order without the interior station, and it is the interior case of the removal's description: the station's two sections give way to the bridge. |
| SubwayLine.RemovalOfOne | src/main/java/nextstep/subway/line/domain/Sections.java:100-104 | When only one lookup finds a section, nothing is appended, and the removal drops exactly that section. |
| SubwayLine.RemovalFirst | src/main/java/nextstep/subway/line/domain/Sections.java:93-104 | Dropping the section found leaving the first station leaves the sections avoiding it, a chain along the rest of the order, as the removal's description says for an end station. |
| SubwayLine.RemovalLast | src/main/java/nextstep/subway/line/domain/Sections.java:93-104 | Dropping the section found entering the last station leaves the sections avoiding it, a chain along the order without it, as the removal's description says for an end station. |

## Left out

- Persistence: the JPA mapping and the cascade and orphan-removal settings are not modelled.
- The `Line` argument of the constructor, `addSection`, `removeLineStation` and the `Section` constructor is dropped; a section does not record its line.
- `Section` is not part of this model. How its `updateUpStation` and `updateDownStation` change the distance is given by two parameters of the class (`rewrittenUpDistance` and `rewrittenDownDistance`), fixed at construction. Whether either method can throw is not known here; the model treats both as total.
- SubwayLine.Sections.UpdateUpStation, SubwayLine.Sections.UpdateDownStation: rewrite the section in the list value; the source mutates the section object that the list shares.
- SubwayLine.Sections.RemoveLineStation: removes sections by their index at the time of removal; the source removes the section objects by equality. The bridging section is appended last, so the first removal only shifts the second by one place when it comes before it.
- Distances are unbounded integers, not restricted to the 32-bit range of a Java `int`. The one sum the line itself computes, the bridging distance of `removeLineStation`, is wrapped to 32 bits as Java wraps it.
- Exceptions become `Fail` outcomes with a tag; the source's messages are not modelled.
- SubwayLine.Sections.Seeded: requires two different stations; the source accepts any two stations there, as `addSection` does (see Findings).
- SubwayLine.Sections.AddSection: refuses a first section from a station to itself (see Findings); the source adds it.
- Stations that are `null`, which the walks in `getStations` and `findUpStation` check for, are not modelled; a station is an identifier.
- The path search and fare calculation (`PathNavigationTest`) and `SectionAddFailedException` are not part of this model.

## Findings

| source | as written | input that shows it | evidently intended | confidence | as-written member | corrected member |
|---|---|---|---|---|---|---|
| src/main/java/nextstep/subway/line/domain/Sections.java:32-36 | On an empty line, validation lets any section through, and `addSection` adds it even when its up and down stations are the same station. `getStations` then calls `findUpStation`, whose lookup of a section entering that station finds the section itself and steps back to the same station, forever. | `addSection(line, s, s, d)` on a line with no sections, then `getStations()` | a first section joins two different stations, so that the sections always form a chain and the walks end | not executed | Chain.SelfLoopSeed | SubwayLine.Sections.AddSection |
