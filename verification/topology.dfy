/**
 * Values of one subway line's topology: stations, directed sections, the
 * first-match lookups over the section list, and the validation of a new
 * section against the line's current station order.
 */
module Topology {

  /** Stations are compared by identity; an identifier stands for it. */
  type Station = int

  /** A directed, weighted section of a line: up station to down station. */
  datatype Section = Section(up: Station, down: Station, distance: int)

  /** The failures of the line's operations. */
  datatype SectionError =
    | AlreadyRegistered   // both endpoints of a new section are already on the line
    | NotConnectable      // neither endpoint of a new section is on a non-empty line
    | NoJunction          // the fallback failure after validation has passed
    | SelfLoop            // a first section whose two endpoints are the same station
    | TooFewSections      // a removal from a line of at most one section

  datatype Outcome = Pass | Fail(error: SectionError)

  datatype Option<T> = None | Some(value: T)

  /** Does section `e` start or end at `s`? */
  predicate Touches(e: Section, s: Station) {
    e.up == s || e.down == s
  }

  /** No two sections start at the same station. */
  ghost predicate UpsDistinct(ss: seq<Section>) {
    forall i, j :: 0 <= i < j < |ss| ==> ss[i].up != ss[j].up
  }

  /** Index of the first section whose up station is `s`, if any. */
  function SameUpStationSection(ss: seq<Section>, s: Station): (r: Option<nat>)
    ensures r.Some? ==> r.value < |ss| && ss[r.value].up == s
    ensures r.Some? ==> forall j :: 0 <= j < r.value ==> ss[j].up != s
    ensures r.None? <==> forall j :: 0 <= j < |ss| ==> ss[j].up != s
  {
    if ss == [] then None
    else if ss[0].up == s then Some(0)
    else match SameUpStationSection(ss[1..], s)
      case None => None
      case Some(i) => Some(i + 1)
  }

  /** Index of the first section whose down station is `s`, if any. */
  function SameDownStationSection(ss: seq<Section>, s: Station): (r: Option<nat>)
    ensures r.Some? ==> r.value < |ss| && ss[r.value].down == s
    ensures r.Some? ==> forall j :: 0 <= j < r.value ==> ss[j].down != s
    ensures r.None? <==> forall j :: 0 <= j < |ss| ==> ss[j].down != s
  {
    if ss == [] then None
    else if ss[0].down == s then Some(0)
    else match SameDownStationSection(ss[1..], s)
      case None => None
      case Some(i) => Some(i + 1)
  }

  /** Whether any element of `stations` is `s`, scanning from the front. */
  function IsStationExisted(s: Station, stations: seq<Station>): (r: bool)
    ensures r <==> s in stations
  {
    if stations == [] then false
    else stations[0] == s || IsStationExisted(s, stations[1..])
  }

  /**
   * The check that precedes any change made by adding a section: a section
   * whose two endpoints are both on the line is refused first, then one that
   * touches no station of a non-empty line.
   */
  function Validate(stations: seq<Station>, upExisted: bool, downExisted: bool): (r: Outcome)
    ensures r == Fail(AlreadyRegistered) <==> upExisted && downExisted
    ensures r == Fail(NotConnectable) <==> stations != [] && !upExisted && !downExisted
    ensures r == Pass <==> (upExisted != downExisted) || (stations == [] && !upExisted)
  {
    if upExisted && downExisted then Fail(AlreadyRegistered)
    else if stations != [] && !upExisted && !downExisted then Fail(NotConnectable)
    else Pass
  }

  /**
   * The value a Java `int` holds after an arithmetic result `x`: `x` wrapped
   * into the 32-bit two's-complement range, one period of 2^32 at a time.
   */
  function Int32(x: int): (r: int)
    ensures -0x8000_0000 <= r < 0x8000_0000
    ensures -0x8000_0000 <= x < 0x8000_0000 ==> r == x
    decreases if x < -0x8000_0000 then -0x8000_0000 - x else if x >= 0x8000_0000 then x - 0x8000_0000 + 1 else 0
  {
    if x < -0x8000_0000 then Int32(x + 0x1_0000_0000)
    else if x >= 0x8000_0000 then Int32(x - 0x1_0000_0000)
    else x
  }

  /** The wrapped value differs from the exact one by a whole number of periods. */
  lemma {:induction false} Int32Congruent(x: int)
    ensures (x - Int32(x)) % 0x1_0000_0000 == 0
    decreases if x < -0x8000_0000 then -0x8000_0000 - x else if x >= 0x8000_0000 then x - 0x8000_0000 + 1 else 0
  {
    if x < -0x8000_0000 {
      Int32Congruent(x + 0x1_0000_0000);
    } else if x >= 0x8000_0000 {
      Int32Congruent(x - 0x1_0000_0000);
    }
  }

  /** The list without its element at index `i`. */
  function RemoveAt<T>(s: seq<T>, i: nat): (r: seq<T>)
    requires i < |s|
    ensures |r| == |s| - 1
    ensures forall t {:trigger r[t]} :: 0 <= t < i ==> r[t] == s[t]
    ensures forall t {:trigger r[t]} :: i <= t < |r| ==> r[t] == s[t + 1]
  {
    if i == 0 then s[1..] else [s[0]] + RemoveAt(s[1..], i - 1)
  }

  /** The sections of `ss`, in their order, that neither start nor end at `s`. */
  function Untouched(ss: seq<Section>, s: Station): (r: seq<Section>)
    ensures |r| <= |ss|
    ensures forall e {:trigger e in r} :: e in r <==> e in ss && !Touches(e, s)
  {
    if ss == [] then []
    else (if Touches(ss[0], s) then [] else [ss[0]]) + Untouched(ss[1..], s)
  }

  /** The total distance of the sections of `ss` that start or end at `s`. */
  function TouchingDistance(ss: seq<Section>, s: Station): (r: int)
    ensures (forall i :: 0 <= i < |ss| ==> !Touches(ss[i], s)) ==> r == 0
  {
    if ss == [] then 0
    else (if Touches(ss[0], s) then ss[0].distance else 0) + TouchingDistance(ss[1..], s)
  }

  /** When only the sections at `a` and `b` touch `s`, their distances make up the total. */
  lemma {:induction false} TouchingPair(ss: seq<Section>, s: Station, a: nat, b: nat)
    requires a < b < |ss| && Touches(ss[a], s) && Touches(ss[b], s)
    requires forall i :: 0 <= i < |ss| && i != a && i != b ==> !Touches(ss[i], s)
    ensures TouchingDistance(ss, s) == ss[a].distance + ss[b].distance
  {
    if a == 0 {
      TouchingOne(ss[1..], s, b - 1);
    } else {
      TouchingPair(ss[1..], s, a - 1, b - 1);
    }
  }

  /** When only the section at `a` touches `s`, its distance is the total. */
  lemma {:induction false} TouchingOne(ss: seq<Section>, s: Station, a: nat)
    requires a < |ss| && Touches(ss[a], s)
    requires forall i :: 0 <= i < |ss| && i != a ==> !Touches(ss[i], s)
    ensures TouchingDistance(ss, s) == ss[a].distance
  {
    if a > 0 {
      TouchingOne(ss[1..], s, a - 1);
    }
  }

  lemma {:induction false} UntouchedKeepsAll(ss: seq<Section>, s: Station)
    requires forall i :: 0 <= i < |ss| ==> !Touches(ss[i], s)
    ensures Untouched(ss, s) == ss
  {
    if ss != [] {
      UntouchedKeepsAll(ss[1..], s);
    }
  }

  /** Dropping one section that touches `s` does not change what is left untouched. */
  lemma {:induction false} UntouchedSkip(ss: seq<Section>, s: Station, i: nat)
    requires i < |ss| && Touches(ss[i], s)
    ensures Untouched(RemoveAt(ss, i), s) == Untouched(ss, s)
  {
    if i == 0 {
      assert RemoveAt(ss, 0) == ss[1..];
    } else {
      var r := RemoveAt(ss, i);
      assert r[0] == ss[0];
      assert r[1..] == RemoveAt(ss[1..], i - 1);
      UntouchedSkip(ss[1..], s, i - 1);
    }
  }

  lemma {:induction false} UntouchedUpsDistinct(ss: seq<Section>, s: Station)
    requires UpsDistinct(ss)
    ensures UpsDistinct(Untouched(ss, s))
  {
    if ss != [] {
      var tail := ss[1..];
      assert UpsDistinct(tail) by {
        forall i, j | 0 <= i < j < |tail| ensures tail[i].up != tail[j].up {
          assert tail[i] == ss[i + 1] && tail[j] == ss[j + 1];
        }
      }
      UntouchedUpsDistinct(tail, s);
      var u := Untouched(tail, s);
      if !Touches(ss[0], s) {
        var r := [ss[0]] + u;
        forall i, j | 0 <= i < j < |r| ensures r[i].up != r[j].up {
          if i == 0 {
            assert r[j] == u[j - 1] && u[j - 1] in u && r[j] in tail;
            var t :| 0 <= t < |tail| && tail[t] == r[j];
            assert tail[t] == ss[t + 1];
          } else {
            assert r[i] == u[i - 1] && r[j] == u[j - 1];
          }
        }
      }
    }
  }
  /** Removing the one section that touches `s` leaves exactly the untouched ones. */
  lemma RemoveOnlyToucher(ss: seq<Section>, s: Station, i: nat)
    requires i < |ss| && Touches(ss[i], s)
    requires forall t :: 0 <= t < |ss| && t != i ==> !Touches(ss[t], s)
    ensures RemoveAt(ss, i) == Untouched(ss, s)
  {
    UntouchedSkip(ss, s, i);
    UntouchedKeepsAll(RemoveAt(ss, i), s);
  }

  /** Removing an element before the appended last one commutes with the append. */
  lemma RemoveAtAppend<T>(s: seq<T>, i: nat, m: T)
    requires i < |s|
    ensures RemoveAt(s + [m], i) == RemoveAt(s, i) + [m]
  {
    assert (s + [m])[..i] == s[..i];
    assert (s + [m])[i + 1..] == s[i + 1..] + [m];
  }

  /** After removing indices `a` and then (shifted) `b`, only sections other than those two remain. */
  lemma RemoveTwoKeepsOthers(ss: seq<Section>, s: Station, a: nat, b: nat)
    requires a < |ss| && b < |ss| && a != b
    requires forall t :: 0 <= t < |ss| && t != a && t != b ==> !Touches(ss[t], s)
    ensures var b' := if a < b then b - 1 else b;
      b' < |ss| - 1 && forall t :: 0 <= t < |ss| - 2 ==> !Touches(RemoveAt(RemoveAt(ss, a), b')[t], s)
  {
    var b' := if a < b then b - 1 else b;
    var once := RemoveAt(ss, a);
    var twice := RemoveAt(once, b');
    forall t | 0 <= t < |twice| ensures !Touches(twice[t], s) {
      var t1 := if t < b' then t else t + 1;
      var t0 := if t1 < a then t1 else t1 + 1;
      assert twice[t] == once[t1];
      assert once[t1] == ss[t0];
    }
  }

  /**
   * Appending `m`, then removing the two sections that touch `s` (the second
   * one at the index it has after the first removal), leaves the untouched
   * sections followed by `m`.
   */
  lemma RemoveTwoTouchers(ss: seq<Section>, s: Station, a: nat, b: nat, m: Section)
    requires a < |ss| && b < |ss| && a != b && Touches(ss[a], s) && Touches(ss[b], s)
    requires forall t :: 0 <= t < |ss| && t != a && t != b ==> !Touches(ss[t], s)
    ensures RemoveAt(RemoveAt(ss + [m], a), if a < b then b - 1 else b) == Untouched(ss, s) + [m]
  {
    var b' := if a < b then b - 1 else b;
    var once := RemoveAt(ss, a);
    RemoveAtAppend(ss, a, m);
    RemoveAtAppend(once, b', m);
    UntouchedSkip(ss, s, a);
    assert once[b'] == ss[b];
    UntouchedSkip(once, s, b');
    RemoveTwoKeepsOthers(ss, s, a, b);
    UntouchedKeepsAll(RemoveAt(once, b'), s);
  }
}
