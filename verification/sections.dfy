/**
 * One subway line's sections, kept in a mutable list that always forms a
 * single chain of stations. The station order is rebuilt on every request
 * by walking the list; `Path` is that order, kept as a ghost field so that
 * the effect of every change can be stated against it.
 */
module SubwayLine {
  import opened Topology
  import opened Chain

  class Sections {
    /**
     * The distance a section keeps when an insertion rewrites its up station,
     * from its old distance and the new section's distance.
     * Section's own update methods are not part of this model.
     */
    const rewrittenUpDistance: (int, int) -> int

    /** The same for an insertion that rewrites a section's down station. */
    const rewrittenDownDistance: (int, int) -> int

    var sections: seq<Section>
    ghost var Path: seq<Station>

    ghost predicate Valid()
      reads this
    {
      if sections == [] then Path == [] else IsChain(sections, Path)
    }

    /** An empty line. */
    constructor (rewrittenUpDistance: (int, int) -> int, rewrittenDownDistance: (int, int) -> int)
      ensures Valid() && sections == [] && Path == []
      ensures this.rewrittenUpDistance == rewrittenUpDistance && this.rewrittenDownDistance == rewrittenDownDistance
    {
      this.rewrittenUpDistance := rewrittenUpDistance;
      this.rewrittenDownDistance := rewrittenDownDistance;
      sections := [];
      Path := [];
    }

    /** A line holding one section. */
    constructor Seeded(rewrittenUpDistance: (int, int) -> int, rewrittenDownDistance: (int, int) -> int,
                       up: Station, down: Station, distance: int)
      requires up != down
      ensures Valid() && sections == [Section(up, down, distance)] && Path == [up, down]
      ensures this.rewrittenUpDistance == rewrittenUpDistance && this.rewrittenDownDistance == rewrittenDownDistance
    {
      this.rewrittenUpDistance := rewrittenUpDistance;
      this.rewrittenDownDistance := rewrittenDownDistance;
      sections := [Section(up, down, distance)];
      Path := [up, down];
      ChainSeed(up, down, distance);
    }

    /**
     * The stations of the line from its upper end to its lower end: empty
     * for a line without sections, otherwise one station more than there
     * are sections, none twice, each consecutive pair joined by a section,
     * and every section joining a consecutive pair.
     */
    method GetStations() returns (stations: seq<Station>)
      requires Valid()
      ensures stations == Path
      ensures stations == [] <==> sections == []
      ensures sections != [] ==> IsChain(sections, stations)
    {
      if sections == [] {
        return [];
      }
      var downStation := FindUpStation();
      stations := [downStation];
      ghost var k := 0;
      while true
        invariant k < |Path| && downStation == Path[k]
        invariant stations == Path[..k + 1]
        decreases |Path| - k
      {
        var nextLineStation := SameUpStationSection(sections, downStation);
        UpMatchOnChain(sections, Path, k);
        if nextLineStation.None? {
          break;
        }
        downStation := sections[nextLineStation.value].down;
        stations := stations + [downStation];
        k := k + 1;
      }
      assert stations == Path;
    }

    /**
     * The upper end of a non-empty line, found by walking back from the
     * first listed section's up station: the first station of the order, and
     * no section ends there.
     */
    method FindUpStation() returns (station: Station)
      requires Valid() && sections != []
      ensures station == Path[0]
      ensures forall i :: 0 <= i < |sections| ==> sections[i].down != station
    {
      station := sections[0].up;
      ghost var k: nat := SectionAt(sections, Path, 0);
      while true
        invariant k < |Path| && station == Path[k]
        decreases k
      {
        var nextLineStation := SameDownStationSection(sections, station);
        DownMatchOnChain(sections, Path, k);
        if nextLineStation.None? {
          break;
        }
        station := sections[nextLineStation.value].up;
        k := k - 1;
      }
      ChainEnds(sections, Path);
    }

    /** Rewrites the first section leaving `up` to leave `down` instead. */
    method UpdateUpStation(up: Station, down: Station, distance: int)
      modifies this`sections
      ensures match SameUpStationSection(old(sections), up)
        case None => sections == old(sections)
        case Some(i) => sections == old(sections)[i := Section(down, old(sections)[i].down,
                                          rewrittenUpDistance(old(sections)[i].distance, distance))]
    {
      var found := SameUpStationSection(sections, up);
      if found.Some? {
        var it := sections[found.value];
        sections := sections[found.value := Section(down, it.down, rewrittenUpDistance(it.distance, distance))];
      }
    }

    /** Rewrites the first section entering `down` to enter `up` instead. */
    method UpdateDownStation(up: Station, down: Station, distance: int)
      modifies this`sections
      ensures match SameDownStationSection(old(sections), down)
        case None => sections == old(sections)
        case Some(i) => sections == old(sections)[i := Section(old(sections)[i].up, up,
                                          rewrittenDownDistance(old(sections)[i].distance, distance))]
    {
      var found := SameDownStationSection(sections, down);
      if found.Some? {
        var it := sections[found.value];
        sections := sections[found.value := Section(it.up, up, rewrittenDownDistance(it.distance, distance))];
      }
    }

    /**
     * Adds the section `up` to `down`. It is refused, with nothing changed,
     * when both stations are already on the line, when neither is on a
     * non-empty line, or when it would be the first section and joins a
     * station to itself. Otherwise it seeds an empty line, or is spliced in
     * right after `up` or right before `down`, rewriting the neighbouring
     * section's endpoint, and is appended to the list.
     */
    method AddSection(up: Station, down: Station, distance: int) returns (r: Outcome)
      requires Valid()
      modifies this
      ensures Valid()
      ensures r == Fail(AlreadyRegistered) <==> up in old(Path) && down in old(Path)
      ensures r == Fail(NotConnectable) <==> old(Path) != [] && up !in old(Path) && down !in old(Path)
      ensures r == Fail(SelfLoop) <==> old(Path) == [] && up == down
      ensures r != Fail(NoJunction) && r != Fail(TooFewSections)
      ensures r.Fail? ==> sections == old(sections) && Path == old(Path)
      ensures r.Pass? && old(sections) == [] ==> sections == [Section(up, down, distance)] && Path == [up, down]
      ensures r.Pass? ==> |sections| == |old(sections)| + 1 && sections[|old(sections)|] == Section(up, down, distance)
      // only the up station was on the line: `down` now follows it
      ensures r.Pass? && up in old(Path) ==>
        exists k :: 0 <= k < |old(Path)| && old(Path)[k] == up && Path == old(Path)[..k + 1] + [down] + old(Path)[k + 1..]
      ensures r.Pass? && up in old(Path) ==>
        forall i :: 0 <= i < |old(sections)| ==>
          sections[i] == if old(sections)[i].up == up
                         then Section(down, old(sections)[i].down, rewrittenUpDistance(old(sections)[i].distance, distance))
                         else old(sections)[i]
      // only the down station was on the line: `up` now precedes it
      ensures r.Pass? && down in old(Path) ==>
        exists k :: 0 <= k < |old(Path)| && old(Path)[k] == down && Path == old(Path)[..k] + [up] + old(Path)[k..]
      ensures r.Pass? && down in old(Path) ==>
        forall i :: 0 <= i < |old(sections)| ==>
          sections[i] == if old(sections)[i].down == down
                         then Section(old(sections)[i].up, up, rewrittenDownDistance(old(sections)[i].distance, distance))
                         else old(sections)[i]
    {
      var stations := GetStations();
      var isUpStationExisted := IsStationExisted(up, stations);
      var isDownStationExisted := IsStationExisted(down, stations);
      r := Validate(stations, isUpStationExisted, isDownStationExisted);
      if r.Fail? {
        return;
      }

      if stations == [] {
        if up == down {
          r := Fail(SelfLoop);
          return;
        }
        sections := sections + [Section(up, down, distance)];
        assert sections == [Section(up, down, distance)];
        Path := [up, down];
        ChainSeed(up, down, distance);
        return;
      }

      ghost var ss, p := sections, Path;
      var added := Section(up, down, distance);
      if isUpStationExisted {
        ghost var k :| 0 <= k < |p| && p[k] == up;
        UpdateUpStation(up, down, distance);
        InsertAfterOnChain(ss, p, k, down, distance, rewrittenUpDistance, sections);
        sections := sections + [added];
        Path := p[..k + 1] + [down] + p[k + 1..];
      } else if isDownStationExisted {
        ghost var k :| 0 <= k < |p| && p[k] == down;
        UpdateDownStation(up, down, distance);
        InsertBeforeOnChain(ss, p, k, up, distance, rewrittenDownDistance, sections);
        sections := sections + [added];
        Path := p[..k] + [up] + p[k..];
      } else {
        r := Fail(NoJunction);
      }
    }

    /**
     * Removes `station` from the line. A line of at most one section is
     * left as it is and the removal fails. Otherwise the station leaves the
     * order, and the sections change as `StationRemoved` describes.
     */
    method RemoveLineStation(station: Station) returns (r: Outcome)
      requires Valid()
      modifies this
      ensures Valid()
      ensures r == Fail(TooFewSections) <==> |old(sections)| <= 1
      ensures r == Pass || r == Fail(TooFewSections)
      ensures r.Fail? ==> sections == old(sections) && Path == old(Path)
      ensures r.Pass? ==> Path == Without(old(Path), station)
      ensures r.Pass? ==> StationRemoved(old(sections), old(Path), station, sections)
    {
      if |sections| <= 1 {
        r := Fail(TooFewSections);
        return;
      }
      ghost var ss, p := sections, Path;
      var upLineStation := SameUpStationSection(sections, station);
      var downLineStation := SameDownStationSection(sections, station);
      var list := sections;

      if upLineStation.Some? && downLineStation.Some? {
        var newUpStation := list[downLineStation.value].up;
        var newDownStation := list[upLineStation.value].down;
        var newDistance := Int32(list[upLineStation.value].distance + list[downLineStation.value].distance);
        list := list + [Section(newUpStation, newDownStation, newDistance)];
      }
      ghost var appended := list;
      assert appended == (if upLineStation.Some? && downLineStation.Some?
        then ss + [Section(ss[downLineStation.value].up, ss[upLineStation.value].down,
                           Int32(ss[upLineStation.value].distance + ss[downLineStation.value].distance))]
        else ss);

      if upLineStation.Some? {
        list := RemoveAt(list, upLineStation.value);
      }
      ghost var once := list;
      assert once == (if upLineStation.Some? then RemoveAt(appended, upLineStation.value) else appended);
      if downLineStation.Some? {
        // the section is removed where it sits after the first removal
        var at := downLineStation.value;
        if upLineStation.Some? && upLineStation.value < at {
          at := at - 1;
        }
        list := RemoveAt(list, at);
      }
      assert list != [] && IsChain(list, Without(p, station)) && StationRemoved(ss, p, station, list) by {
        assert RemovalSteps(ss, station, upLineStation, downLineStation, appended, once, list);
        RemovalOnChain(ss, p, station, upLineStation, downLineStation, appended, once, list);
      }
      sections := list;
      Path := Without(p, station);
      r := Pass;
    }
  }

  /**
   * `after` is what is left of `ss` once the sections touching the interior
   * station `station` of the order `p` give way to one section from its
   * predecessor to its successor, whose distance is the sum of the distances
   * of the sections it replaces, as a Java `int` holds it.
   */
  ghost predicate Bridged(ss: seq<Section>, p: seq<Station>, station: Station, after: seq<Section>) {
    exists k :: 0 < k < |p| - 1 && p[k] == station &&
      after == Untouched(ss, station) + [Section(p[k - 1], p[k + 1], Int32(TouchingDistance(ss, station)))]
  }

  /**
   * The sections `after` that removing `station` leaves of the sections `ss`
   * of the order `p`: all of them when the station is not on the line;
   * otherwise one fewer. An end station's one section goes; an interior
   * station's entering and leaving sections give way to one bridging them.
   */
  ghost predicate StationRemoved(ss: seq<Section>, p: seq<Station>, station: Station, after: seq<Section>) {
    && (station !in p ==> after == ss)
    && (station in p ==> |after| == |ss| - 1)
    && (0 < |p| && (station == p[0] || station == p[|p| - 1]) ==> after == Untouched(ss, station))
    && (0 < |p| && station in p && station != p[0] && station != p[|p| - 1] ==>
         Bridged(ss, p, station, after))
  }

  /**
   * The steps of a removal from `ss`: the two lookups `up` and `down` for
   * the sections leaving and entering `station`; `appended`, the list with
   * the bridging section added when both exist; `once`, without the section
   * leaving the station; and `after`, also without the one entering it, at
   * the index it has once the first is gone.
   */
  ghost predicate RemovalSteps(ss: seq<Section>, station: Station, up: Option<nat>, down: Option<nat>,
                               appended: seq<Section>, once: seq<Section>, after: seq<Section>) {
    && up == SameUpStationSection(ss, station)
    && down == SameDownStationSection(ss, station)
    && appended == (if up.Some? && down.Some?
                    then ss + [Section(ss[down.value].up, ss[up.value].down, Int32(ss[up.value].distance + ss[down.value].distance))]
                    else ss)
    && once == (if up.Some? then RemoveAt(appended, up.value) else appended)
    && after == (if down.Some?
                 then RemoveAt(once, if up.Some? && up.value < down.value then down.value - 1 else down.value)
                 else once)
  }

  /** The removal steps leave a chain of the order without the station, as `StationRemoved` describes. */
  lemma RemovalOnChain(ss: seq<Section>, p: seq<Station>, station: Station, up: Option<nat>, down: Option<nat>,
                       appended: seq<Section>, once: seq<Section>, after: seq<Section>)
    requires IsChain(ss, p) && |ss| >= 2
    requires RemovalSteps(ss, station, up, down, appended, once, after)
    ensures after != []
    ensures IsChain(after, Without(p, station))
    ensures StationRemoved(ss, p, station, after)
  {
    if station !in p {
      OffChain(ss, p, station);
    } else {
      var k :| 0 <= k < |p| && p[k] == station;
      if k == 0 {
        RemoveFirstOnChain(ss, p);
        RemovalOfOne(ss, station, up, down, appended, once, after);
        RemovalFirst(ss, p, up.value, after);
      } else if k == |ss| {
        RemoveLastOnChain(ss, p);
        RemovalOfOne(ss, station, up, down, appended, once, after);
        RemovalLast(ss, p, down.value, after);
      } else {
        InteriorShaped(ss, p, k);
        RemovalInterior(ss, p[k], p[k - 1], p[k + 1], up, down, appended, once, after);
        InteriorChain(ss, p, k, after);
      }
    }
  }

  /** Removing an interior station: its two sections give way to the bridge. */
  lemma RemovalInterior(ss: seq<Section>, s: Station, pred: Station, succ: Station, up: Option<nat>, down: Option<nat>,
                        appended: seq<Section>, once: seq<Section>, after: seq<Section>)
    requires InteriorShape(ss, s, pred, succ)
    requires RemovalSteps(ss, s, up, down, appended, once, after)
    ensures |after| == |ss| - 1
    ensures after == Untouched(ss, s) + [Section(pred, succ, Int32(TouchingDistance(ss, s)))]
  {
    var m := Section(pred, succ, Int32(TouchingDistance(ss, s)));
    assert up.Some? && down.Some?;
    assert Section(ss[down.value].up, ss[up.value].down, Int32(ss[up.value].distance + ss[down.value].distance)) == m;
  }

  /**
   * Once an interior station's sections are bridged, the order without the
   * station is a chain of what is left, and the removal is as
   * `StationRemoved` describes.
   */
  lemma InteriorChain(ss: seq<Section>, p: seq<Station>, k: nat, after: seq<Section>)
    requires IsChain(ss, p) && 0 < k < |ss|
    requires |after| == |ss| - 1
    requires after == Untouched(ss, p[k]) + [Section(p[k - 1], p[k + 1], Int32(TouchingDistance(ss, p[k])))]
    ensures IsChain(after, Without(p, p[k]))
    ensures StationRemoved(ss, p, p[k], after)
  {
    WithoutAt(p, k);
    var iu, id := InteriorNeighbours(ss, p, k);
    RemoveInteriorOnChain(ss, p, k, iu, id, after[|after| - 1]);
    assert p[k] != p[0] && p[k] != p[|p| - 1];
    assert Bridged(ss, p, p[k], after);
  }

  /** When only one of the two lookups finds a section, the removal drops just that section. */
  lemma RemovalOfOne(ss: seq<Section>, s: Station, up: Option<nat>, down: Option<nat>,
                     appended: seq<Section>, once: seq<Section>, after: seq<Section>)
    requires RemovalSteps(ss, s, up, down, appended, once, after)
    requires up.None? || down.None?
    ensures up.Some? ==> after == RemoveAt(ss, up.value)
    ensures down.Some? ==> after == RemoveAt(ss, down.value)
  {
    assert appended == ss;
  }

  /** Removing the first station drops the one section leaving it. */
  lemma RemovalFirst(ss: seq<Section>, p: seq<Station>, iu: nat, after: seq<Section>)
    requires IsChain(ss, p) && |ss| >= 2
    requires SameUpStationSection(ss, p[0]) == Some(iu) && after == RemoveAt(ss, iu)
    ensures IsChain(after, Without(p, p[0]))
    ensures StationRemoved(ss, p, p[0], after)
  {
    WithoutAt(p, 0);
    assert p[..0] + p[1..] == p[1..];
    RemoveFirstOnChain(ss, p);
  }

  /** Removing the last station drops the one section entering it. */
  lemma RemovalLast(ss: seq<Section>, p: seq<Station>, id: nat, after: seq<Section>)
    requires IsChain(ss, p) && |ss| >= 2
    requires SameDownStationSection(ss, p[|ss|]) == Some(id) && after == RemoveAt(ss, id)
    ensures IsChain(after, Without(p, p[|ss|]))
    ensures StationRemoved(ss, p, p[|ss|], after)
  {
    WithoutAt(p, |ss|);
    assert p[..|ss|] + p[|ss| + 1..] == p[..|ss|];
    RemoveLastOnChain(ss, p);
  }
}
