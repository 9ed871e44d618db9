/**
 * The invariant of a line: its sections form one simple chain of stations.
 * A station order `p` is a chain of sections `ss` when `p` has one station
 * more than `ss` has sections, repeats no station, every section joins two
 * consecutive stations of `p`, every two consecutive stations are joined by
 * a section, and no two sections leave the same station.
 */
module Chain {
  import opened Topology

  ghost predicate Distinct(p: seq<Station>) {
    forall a, b :: 0 <= a < b < |p| ==> p[a] != p[b]
  }

  /** The order `p` with its first occurrence of `s` taken out. */
  function Without(p: seq<Station>, s: Station): (r: seq<Station>)
    ensures s !in p ==> r == p
    ensures s in p ==> |r| == |p| - 1
  {
    if p == [] then []
    else if p[0] == s then p[1..]
    else [p[0]] + Without(p[1..], s)
  }

  /** In an order without repeats, taking out the station at `k` splices the order around position `k`. */
  lemma {:induction false} WithoutAt(p: seq<Station>, k: nat)
    requires Distinct(p) && k < |p|
    ensures Without(p, p[k]) == p[..k] + p[k + 1..]
  {
    if k > 0 {
      assert Distinct(p[1..]) by {
        forall a, b | 0 <= a < b < |p[1..]| ensures p[1..][a] != p[1..][b] {
          assert p[1..][a] == p[a + 1] && p[1..][b] == p[b + 1];
        }
      }
      assert p[1..][k - 1] == p[k];
      WithoutAt(p[1..], k - 1);
      assert p[0] != p[k];
      assert [p[0]] + (p[1..][..k - 1] + p[1..][k..]) == p[..k] + p[k + 1..];
    }
  }

  /** `x` is immediately followed by `y` in `p`. */
  ghost predicate Consecutive(p: seq<Station>, x: Station, y: Station) {
    exists k :: 0 <= k < |p| - 1 && p[k] == x && p[k + 1] == y
  }

  /** Some section of `ss` goes from `x` to `y`. */
  ghost predicate Joined(ss: seq<Section>, x: Station, y: Station) {
    exists i :: 0 <= i < |ss| && ss[i].up == x && ss[i].down == y
  }

  /** The stations at positions `k` and `k + 1` of `p` are joined by a section of `ss`. */
  ghost predicate JoinedAt(ss: seq<Section>, p: seq<Station>, k: nat)
    requires k + 1 < |p|
  {
    Joined(ss, p[k], p[k + 1])
  }

  /** The section at index `i` of `ss` joins two consecutive stations of `p`. */
  ghost predicate PlacedAt(ss: seq<Section>, p: seq<Station>, i: nat)
    requires i < |ss|
  {
    Consecutive(p, ss[i].up, ss[i].down)
  }

  ghost predicate IsChain(ss: seq<Section>, p: seq<Station>) {
    && |p| == |ss| + 1
    && Distinct(p)
    && UpsDistinct(ss)
    && (forall i: nat :: i < |ss| ==> PlacedAt(ss, p, i))
    && (forall k: nat :: k < |ss| ==> JoinedAt(ss, p, k))
  }

  /** Every section's endpoints sit at consecutive positions `k`, `k + 1` of the chain. */
  lemma SectionAt(ss: seq<Section>, p: seq<Station>, i: nat) returns (k: nat)
    requires IsChain(ss, p) && i < |ss|
    ensures k < |ss| && ss[i].up == p[k] && ss[i].down == p[k + 1]
  {
    assert PlacedAt(ss, p, i);
    k :| 0 <= k < |p| - 1 && p[k] == ss[i].up && p[k + 1] == ss[i].down;
  }

  /**
   * On a chain, the first section leaving the station at position `k` is
   * the one to position `k + 1`; the last station has none.
   */
  lemma UpMatchOnChain(ss: seq<Section>, p: seq<Station>, k: nat)
    requires IsChain(ss, p) && k < |p|
    ensures SameUpStationSection(ss, p[k]).Some? <==> k < |ss|
    ensures k < |ss| ==> ss[SameUpStationSection(ss, p[k]).value].down == p[k + 1]
  {
    if k < |ss| {
      assert JoinedAt(ss, p, k);
      var i := SameUpStationSection(ss, p[k]).value;
      var k' := SectionAt(ss, p, i);
    } else {
      forall j | 0 <= j < |ss| ensures ss[j].up != p[k] {
        var k' := SectionAt(ss, p, j);
      }
    }
  }

  /**
   * On a chain, the first section entering the station at position `k` is
   * the one from position `k - 1`; the first station has none.
   */
  lemma DownMatchOnChain(ss: seq<Section>, p: seq<Station>, k: nat)
    requires IsChain(ss, p) && k < |p|
    ensures SameDownStationSection(ss, p[k]).Some? <==> 0 < k
    ensures 0 < k ==> ss[SameDownStationSection(ss, p[k]).value].up == p[k - 1]
  {
    if 0 < k {
      assert JoinedAt(ss, p, k - 1);
      var i := SameDownStationSection(ss, p[k]).value;
      var k' := SectionAt(ss, p, i);
    } else {
      forall j | 0 <= j < |ss| ensures ss[j].down != p[k] {
        var k' := SectionAt(ss, p, j);
      }
    }
  }

  /** A station off the chain is no section's endpoint. */
  lemma OffChain(ss: seq<Section>, p: seq<Station>, s: Station)
    requires IsChain(ss, p) && s !in p
    ensures forall i :: 0 <= i < |ss| ==> !Touches(ss[i], s)
  {
    forall i | 0 <= i < |ss| ensures !Touches(ss[i], s) {
      var k := SectionAt(ss, p, i);
    }
  }

  /** The only sections touching the station at position `k` are the ones entering and leaving it. */
  lemma TouchingOnChain(ss: seq<Section>, p: seq<Station>, k: nat, i: nat)
    requires IsChain(ss, p) && k < |p| && i < |ss|
    ensures Touches(ss[i], p[k]) ==>
              ((ss[i].up == p[k] && k < |ss| && ss[i].down == p[k + 1])
               || (ss[i].down == p[k] && 0 < k && ss[i].up == p[k - 1]))
  {
    var k' := SectionAt(ss, p, i);
  }

  /** The ends of a chain: nothing enters its first station, nothing leaves its last. */
  lemma ChainEnds(ss: seq<Section>, p: seq<Station>)
    requires IsChain(ss, p)
    ensures forall i :: 0 <= i < |ss| ==> ss[i].down != p[0]
    ensures forall i :: 0 <= i < |ss| ==> ss[i].up != p[|p| - 1]
  {
    DownMatchOnChain(ss, p, 0);
    UpMatchOnChain(ss, p, |p| - 1);
  }

  /** The station order of a non-empty chain is determined by its sections. */
  lemma {:induction false} ChainUnique(ss: seq<Section>, p: seq<Station>, q: seq<Station>)
    requires IsChain(ss, p) && IsChain(ss, q)
    requires |ss| > 0
    ensures p == q
  {
    // q[0] leaves some section, so it lies on p; it must be p's first station.
    assert JoinedAt(ss, q, 0);
    var i0 :| 0 <= i0 < |ss| && ss[i0].up == q[0] && ss[i0].down == q[1];
    var k0 := SectionAt(ss, p, i0);
    ChainEnds(ss, q);
    DownMatchOnChain(ss, p, k0);
    assert k0 == 0;
    var t := 0;
    while t < |ss|
      invariant 0 <= t <= |ss|
      invariant forall u :: 0 <= u <= t ==> p[u] == q[u]
    {
      assert JoinedAt(ss, p, t);
      var i :| 0 <= i < |ss| && ss[i].up == p[t] && ss[i].down == p[t + 1];
      var k := SectionAt(ss, q, i);
      assert q[k] == q[t];
      t := t + 1;
    }
  }

  /** A single section between two different stations is a chain. */
  lemma ChainSeed(up: Station, down: Station, distance: int)
    requires up != down
    ensures IsChain([Section(up, down, distance)], [up, down])
  {
    var ss := [Section(up, down, distance)];
    var p := [up, down];
    assert p[0] == up && p[1] == down;
    assert Consecutive(p, ss[0].up, ss[0].down);
    assert JoinedAt(ss, p, 0);
  }

  /** A section from the last station to a new one extends the chain at its tail. */
  lemma ChainExtendTail(ss: seq<Section>, p: seq<Station>, x: Station, distance: int)
    requires IsChain(ss, p) && x !in p
    ensures IsChain(ss + [Section(p[|p| - 1], x, distance)], p + [x])
  {
    var n := |ss|;
    var ss' := ss + [Section(p[n], x, distance)];
    var p' := p + [x];
    forall i | 0 <= i < |ss'| ensures Consecutive(p', ss'[i].up, ss'[i].down) {
      if i < n {
        var k := SectionAt(ss, p, i);
        assert p'[k] == p[k] && p'[k + 1] == p[k + 1];
      } else {
        assert p'[n] == p[n] && p'[n + 1] == x;
      }
    }
    forall k | 0 <= k < |ss'| ensures Joined(ss', p'[k], p'[k + 1]) {
      if k < n {
        assert JoinedAt(ss, p, k);
        var i :| 0 <= i < n && ss[i].up == p[k] && ss[i].down == p[k + 1];
        assert ss'[i] == ss[i];
      } else {
        assert ss'[n].up == p'[k] && ss'[n].down == p'[k + 1];
      }
    }
    forall i, j | 0 <= i < j < |ss'| ensures ss'[i].up != ss'[j].up {
      var ki := SectionAt(ss, p, i);
      if j < n {
        var kj := SectionAt(ss, p, j);
      }
    }
  }

  /** A section from a new station to the first one extends the chain at its head. */
  lemma ChainExtendHead(ss: seq<Section>, p: seq<Station>, x: Station, distance: int)
    requires IsChain(ss, p) && x !in p
    ensures IsChain(ss + [Section(x, p[0], distance)], [x] + p)
  {
    var n := |ss|;
    var ss' := ss + [Section(x, p[0], distance)];
    var p' := [x] + p;
    forall i | 0 <= i < |ss'| ensures Consecutive(p', ss'[i].up, ss'[i].down) {
      if i < n {
        var k := SectionAt(ss, p, i);
        assert p'[k + 1] == p[k] && p'[k + 2] == p[k + 1];
      } else {
        assert p'[0] == x && p'[1] == p[0];
      }
    }
    forall k | 0 <= k < |ss'| ensures Joined(ss', p'[k], p'[k + 1]) {
      if k == 0 {
        assert ss'[n].up == p'[0] && ss'[n].down == p'[1];
      } else {
        assert JoinedAt(ss, p, k - 1);
        var i :| 0 <= i < n && ss[i].up == p[k - 1] && ss[i].down == p[k];
        assert ss'[i] == ss[i];
      }
    }
    assert Distinct(p') by {
      forall a, b | 0 <= a < b < |p'| ensures p'[a] != p'[b] {
        if a > 0 {
          assert p'[a] == p[a - 1] && p'[b] == p[b - 1];
        }
      }
    }
    forall i, j | 0 <= i < j < |ss'| ensures ss'[i].up != ss'[j].up {
      var ki := SectionAt(ss, p, i);
      if j < n {
        var kj := SectionAt(ss, p, j);
      }
    }
  }

  /**
   * Splitting the section from position `k` to `k + 1` at a new station `x`:
   * the section at index `j` becomes one half and a new section, appended,
   * is the other half. The halves may come in either order.
   */
  lemma ChainSplit(ss: seq<Section>, p: seq<Station>, k: nat, j: nat, x: Station, a: Section, b: Section)
    requires IsChain(ss, p) && k < |ss| && j < |ss| && ss[j].up == p[k] && x !in p
    requires (a.up == p[k] && a.down == x && b.up == x && b.down == p[k + 1])
          || (a.up == x && a.down == p[k + 1] && b.up == p[k] && b.down == x)
    ensures IsChain(ss[j := a] + [b], p[..k + 1] + [x] + p[k + 1..])
  {
    SplitOrder(p, k, x);
    SplitPlaced(ss, p, k, j, x, a, b);
    SplitJoined(ss, p, k, j, x, a, b);
    SplitUpsDistinct(ss, p, k, j, x, a, b);
  }

  /** The order with `x` spliced in after position `k`: where its stations come from, and that they stay distinct. */
  lemma SplitOrder(p: seq<Station>, k: nat, x: Station)
    requires Distinct(p) && k + 1 < |p| && x !in p
    ensures var p' := p[..k + 1] + [x] + p[k + 1..];
      && |p'| == |p| + 1 && p'[k + 1] == x && Distinct(p')
      && (forall t :: 0 <= t <= k ==> p'[t] == p[t])
      && (forall t :: k + 1 < t < |p'| ==> p'[t] == p[t - 1])
  {
    var p' := p[..k + 1] + [x] + p[k + 1..];
    assert forall t :: 0 <= t <= k ==> p'[t] == p[t];
    assert forall t :: k + 1 < t < |p'| ==> p'[t] == p[t - 1];
    forall u, v | 0 <= u < v < |p'| ensures p'[u] != p'[v] {
      if v <= k {
      } else if v == k + 1 {
        assert p'[u] == p[u];
      } else if u == k + 1 {
        assert p'[v] == p[v - 1];
      } else if u <= k {
        assert p'[u] == p[u] && p'[v] == p[v - 1];
      } else {
        assert p'[u] == p[u - 1] && p'[v] == p[v - 1];
      }
    }
  }

  /** In `ChainSplit`, every section of the new list joins two consecutive stations of the new order. */
  lemma SplitPlaced(ss: seq<Section>, p: seq<Station>, k: nat, j: nat, x: Station, a: Section, b: Section)
    requires IsChain(ss, p) && k < |ss| && j < |ss| && ss[j].up == p[k] && x !in p
    requires (a.up == p[k] && a.down == x && b.up == x && b.down == p[k + 1])
          || (a.up == x && a.down == p[k + 1] && b.up == p[k] && b.down == x)
    ensures var ss', p' := ss[j := a] + [b], p[..k + 1] + [x] + p[k + 1..];
      forall i: nat :: i < |ss'| ==> PlacedAt(ss', p', i)
  {
    var n := |ss|;
    var ss' := ss[j := a] + [b];
    var p' := p[..k + 1] + [x] + p[k + 1..];
    SplitOrder(p, k, x);
    var kj := SectionAt(ss, p, j);
    assert kj == k;
    forall i: nat | i < |ss'| ensures PlacedAt(ss', p', i) {
      if i == n || i == j {
        if ss'[i].up == p[k] {
          assert p'[k] == p[k] && p'[k + 1] == x;
        } else {
          assert p'[k + 1] == x && p'[k + 2] == p[k + 1];
        }
      } else {
        assert ss'[i] == ss[i];
        var ki := SectionAt(ss, p, i);
        assert ki != k;
        if ki < k {
          assert p'[ki] == p[ki] && p'[ki + 1] == p[ki + 1];
        } else {
          assert p'[ki + 1] == p[ki] && p'[ki + 2] == p[ki + 1];
        }
      }
    }
  }

  /** In `ChainSplit`, every two consecutive stations of the new order are joined by a section of the new list. */
  lemma SplitJoined(ss: seq<Section>, p: seq<Station>, k: nat, j: nat, x: Station, a: Section, b: Section)
    requires IsChain(ss, p) && k < |ss| && j < |ss| && ss[j].up == p[k] && x !in p
    requires (a.up == p[k] && a.down == x && b.up == x && b.down == p[k + 1])
          || (a.up == x && a.down == p[k + 1] && b.up == p[k] && b.down == x)
    ensures var ss', p' := ss[j := a] + [b], p[..k + 1] + [x] + p[k + 1..];
      forall t: nat :: t < |ss'| ==> JoinedAt(ss', p', t)
  {
    var n := |ss|;
    var ss' := ss[j := a] + [b];
    var p' := p[..k + 1] + [x] + p[k + 1..];
    SplitOrder(p, k, x);
    var kj := SectionAt(ss, p, j);
    assert kj == k;
    forall t: nat | t < |ss'| ensures JoinedAt(ss', p', t) {
      if t < k {
        assert JoinedAt(ss, p, t);
        var i :| 0 <= i < n && ss[i].up == p[t] && ss[i].down == p[t + 1];
        assert ss'[i] == ss[i];
      } else if t == k || t == k + 1 {
        if a.up == p'[t] {
          assert ss'[j] == a;
        } else {
          assert ss'[n] == b;
        }
      } else {
        assert JoinedAt(ss, p, t - 1);
        var i :| 0 <= i < n && ss[i].up == p[t - 1] && ss[i].down == p[t];
        assert ss'[i] == ss[i];
      }
    }
  }

  /** In `ChainSplit`, no two sections of the new list start at the same station. */
  lemma SplitUpsDistinct(ss: seq<Section>, p: seq<Station>, k: nat, j: nat, x: Station, a: Section, b: Section)
    requires IsChain(ss, p) && k < |ss| && j < |ss| && ss[j].up == p[k] && x !in p
    requires (a.up == p[k] && a.down == x && b.up == x && b.down == p[k + 1])
          || (a.up == x && a.down == p[k + 1] && b.up == p[k] && b.down == x)
    ensures UpsDistinct(ss[j := a] + [b])
  {
    var n := |ss|;
    var ss' := ss[j := a] + [b];
    var kj := SectionAt(ss, p, j);
    forall u, v | 0 <= u < v < |ss'| ensures ss'[u].up != ss'[v].up {
      if u != j && u != n {
        var ku := SectionAt(ss, p, u);
      }
      if v != j && v != n {
        var kv := SectionAt(ss, p, v);
      }
    }
  }

  /**
   * Removing an interior station at position `k`: the sections that do not
   * touch it, followed by one section bridging its two neighbours, form a
   * chain of the order without it.
   */
  lemma ChainMerge(ss: seq<Section>, p: seq<Station>, k: nat, rest: seq<Section>, m: Section)
    requires IsChain(ss, p) && 0 < k < |ss|
    requires forall e :: e in rest <==> e in ss && !Touches(e, p[k])
    requires |rest| == |ss| - 2 && UpsDistinct(rest)
    requires m.up == p[k - 1] && m.down == p[k + 1]
    ensures IsChain(rest + [m], p[..k] + p[k + 1..])
  {
    MergeOrder(p, k);
    MergePlaced(ss, p, k, rest, m);
    MergeJoined(ss, p, k, rest, m);
    MergeUpsDistinct(ss, p, k, rest, m);
  }

  /** The order with position `k` taken out: where its stations come from, and that they stay distinct. */
  lemma MergeOrder(p: seq<Station>, k: nat)
    requires Distinct(p) && k < |p|
    ensures var p' := p[..k] + p[k + 1..];
      && |p'| == |p| - 1 && Distinct(p')
      && (forall t :: 0 <= t < k ==> p'[t] == p[t])
      && (forall t :: k <= t < |p'| ==> p'[t] == p[t + 1])
  {
    var p' := p[..k] + p[k + 1..];
    assert forall t :: 0 <= t < k ==> p'[t] == p[t];
    assert forall t :: k <= t < |p'| ==> p'[t] == p[t + 1];
    forall u, v | 0 <= u < v < |p'| ensures p'[u] != p'[v] {
      if v < k {
      } else if u < k {
        assert p'[u] == p[u] && p'[v] == p[v + 1];
      } else {
        assert p'[u] == p[u + 1] && p'[v] == p[v + 1];
      }
    }
  }

  /** In `ChainMerge`, every section of the new list joins two consecutive stations of the new order. */
  lemma MergePlaced(ss: seq<Section>, p: seq<Station>, k: nat, rest: seq<Section>, m: Section)
    requires IsChain(ss, p) && 0 < k < |ss|
    requires forall e :: e in rest <==> e in ss && !Touches(e, p[k])
    requires |rest| == |ss| - 2 && UpsDistinct(rest)
    requires m.up == p[k - 1] && m.down == p[k + 1]
    ensures var ss', p' := rest + [m], p[..k] + p[k + 1..];
      forall i: nat :: i < |ss'| ==> PlacedAt(ss', p', i)
  {
    var n := |ss|;
    var ss' := rest + [m];
    var p' := p[..k] + p[k + 1..];
    MergeOrder(p, k);
    forall i: nat | i < |ss'| ensures PlacedAt(ss', p', i) {
      if i == n - 2 {
        assert p'[k - 1] == p[k - 1] && p'[k] == p[k + 1];
      } else {
        assert ss'[i] == rest[i] && rest[i] in ss;
        var g :| 0 <= g < n && ss[g] == rest[i];
        var kg := SectionAt(ss, p, g);
        if kg < k - 1 {
          assert p'[kg] == p[kg] && p'[kg + 1] == p[kg + 1];
        } else {
          assert kg > k;
          assert p'[kg - 1] == p[kg] && p'[kg] == p[kg + 1];
        }
      }
    }
  }

  /** In `ChainMerge`, every two consecutive stations of the new order are joined by a section of the new list. */
  lemma MergeJoined(ss: seq<Section>, p: seq<Station>, k: nat, rest: seq<Section>, m: Section)
    requires IsChain(ss, p) && 0 < k < |ss|
    requires forall e :: e in rest <==> e in ss && !Touches(e, p[k])
    requires |rest| == |ss| - 2 && UpsDistinct(rest)
    requires m.up == p[k - 1] && m.down == p[k + 1]
    ensures var ss', p' := rest + [m], p[..k] + p[k + 1..];
      forall t: nat :: t < |ss'| ==> JoinedAt(ss', p', t)
  {
    var n := |ss|;
    var ss' := rest + [m];
    var p' := p[..k] + p[k + 1..];
    MergeOrder(p, k);
    forall t: nat | t < |ss'| ensures JoinedAt(ss', p', t) {
      if t == k - 1 {
        assert ss'[n - 2] == m;
      } else {
        var t0 := if t < k - 1 then t else t + 1;
        assert p'[t] == p[t0] && p'[t + 1] == p[t0 + 1];
        assert JoinedAt(ss, p, t0);
        var i :| 0 <= i < n && ss[i].up == p[t0] && ss[i].down == p[t0 + 1];
        assert ss[i] in rest;
        var r :| 0 <= r < |rest| && rest[r] == ss[i];
        assert ss'[r] == ss[i];
      }
    }
  }

  /** In `ChainMerge`, no two sections of the new list start at the same station. */
  lemma MergeUpsDistinct(ss: seq<Section>, p: seq<Station>, k: nat, rest: seq<Section>, m: Section)
    requires IsChain(ss, p) && 0 < k < |ss|
    requires forall e :: e in rest <==> e in ss && !Touches(e, p[k])
    requires |rest| == |ss| - 2 && UpsDistinct(rest)
    requires m.up == p[k - 1] && m.down == p[k + 1]
    ensures UpsDistinct(rest + [m])
  {
    var n := |ss|;
    var ss' := rest + [m];
    forall u, v | 0 <= u < v < |ss'| ensures ss'[u].up != ss'[v].up {
      if v == n - 2 {
        assert ss'[u] == rest[u] && rest[u] in ss;
        var g :| 0 <= g < n && ss[g] == rest[u];
        assert JoinedAt(ss, p, k - 1);
        var h :| 0 <= h < n && ss[h].up == p[k - 1] && ss[h].down == p[k];
        assert g != h;
      }
    }
  }

  /** Removing the first station of a chain of at least two sections. */
  lemma ChainDropFirst(ss: seq<Section>, p: seq<Station>, rest: seq<Section>)
    requires IsChain(ss, p) && |ss| >= 2
    requires forall e :: e in rest <==> e in ss && !Touches(e, p[0])
    requires |rest| == |ss| - 1 && UpsDistinct(rest)
    ensures IsChain(rest, p[1..])
  {
    var n := |ss|;
    var p' := p[1..];
    forall i | 0 <= i < |rest| ensures Consecutive(p', rest[i].up, rest[i].down) {
      assert rest[i] in ss;
      var g :| 0 <= g < n && ss[g] == rest[i];
      var kg := SectionAt(ss, p, g);
      assert p'[kg - 1] == p[kg] && p'[kg] == p[kg + 1];
    }
    forall t | 0 <= t < |rest| ensures Joined(rest, p'[t], p'[t + 1]) {
      assert JoinedAt(ss, p, t + 1);
      var i :| 0 <= i < n && ss[i].up == p[t + 1] && ss[i].down == p[t + 2];
      assert ss[i] in rest;
    }
    assert Distinct(p') by {
      forall u, v | 0 <= u < v < |p'| ensures p'[u] != p'[v] {
        assert p'[u] == p[u + 1] && p'[v] == p[v + 1];
      }
    }
  }

  /** Removing the last station of a chain of at least two sections. */
  lemma ChainDropLast(ss: seq<Section>, p: seq<Station>, rest: seq<Section>)
    requires IsChain(ss, p) && |ss| >= 2
    requires forall e :: e in rest <==> e in ss && !Touches(e, p[|ss|])
    requires |rest| == |ss| - 1 && UpsDistinct(rest)
    ensures IsChain(rest, p[..|ss|])
  {
    var n := |ss|;
    var p' := p[..n];
    forall i | 0 <= i < |rest| ensures Consecutive(p', rest[i].up, rest[i].down) {
      assert rest[i] in ss;
      var g :| 0 <= g < n && ss[g] == rest[i];
      var kg := SectionAt(ss, p, g);
      assert p'[kg] == p[kg] && p'[kg + 1] == p[kg + 1];
    }
    forall t | 0 <= t < |rest| ensures Joined(rest, p'[t], p'[t + 1]) {
      assert JoinedAt(ss, p, t);
      var i :| 0 <= i < n && ss[i].up == p[t] && ss[i].down == p[t + 1];
      assert ss[i] in rest;
    }
  }

  /**
   * Splicing a new station `x` in right after the station at position `k`:
   * the first section leaving that station, if any, is rewritten to leave
   * `x`, and the section from the station to `x` is appended.
   */
  lemma InsertAfterOnChain(ss: seq<Section>, p: seq<Station>, k: nat, x: Station, distance: int,
                           rd: (int, int) -> int, rewritten: seq<Section>)
    requires IsChain(ss, p) && k < |p| && x !in p
    requires match SameUpStationSection(ss, p[k])
      case None => rewritten == ss
      case Some(j) => rewritten == ss[j := Section(x, ss[j].down, rd(ss[j].distance, distance))]
    ensures |rewritten| == |ss|
    ensures forall i :: 0 <= i < |ss| ==>
      rewritten[i] == if ss[i].up == p[k] then Section(x, ss[i].down, rd(ss[i].distance, distance)) else ss[i]
    ensures IsChain(rewritten + [Section(p[k], x, distance)], p[..k + 1] + [x] + p[k + 1..])
  {
    UpMatchOnChain(ss, p, k);
    if k == |ss| {
      InsertAfterTail(ss, p, x, distance, rd, rewritten);
    } else {
      var j := SameUpStationSection(ss, p[k]).value;
      InsertAfterInterior(ss, p, k, j, x, distance, rd, rewritten);
    }
  }

  /** The case of `InsertAfterOnChain` where a section leaves the station, at index `j`. */
  lemma InsertAfterInterior(ss: seq<Section>, p: seq<Station>, k: nat, j: nat, x: Station, distance: int,
                            rd: (int, int) -> int, rewritten: seq<Section>)
    requires IsChain(ss, p) && k < |ss| && x !in p
    requires j < |ss| && ss[j].up == p[k] && ss[j].down == p[k + 1]
    requires rewritten == ss[j := Section(x, ss[j].down, rd(ss[j].distance, distance))]
    ensures forall i :: 0 <= i < |ss| ==>
      rewritten[i] == if ss[i].up == p[k] then Section(x, ss[i].down, rd(ss[i].distance, distance)) else ss[i]
    ensures IsChain(rewritten + [Section(p[k], x, distance)], p[..k + 1] + [x] + p[k + 1..])
  {
    forall i | 0 <= i < |ss| && i != j ensures ss[i].up != p[k] {
      assert ss[i].up != ss[j].up;
    }
    ChainSplit(ss, p, k, j, x, rewritten[j], Section(p[k], x, distance));
  }

  /** The case of `InsertAfterOnChain` at the last station, which no section leaves. */
  lemma InsertAfterTail(ss: seq<Section>, p: seq<Station>, x: Station, distance: int,
                        rd: (int, int) -> int, rewritten: seq<Section>)
    requires IsChain(ss, p) && x !in p
    requires SameUpStationSection(ss, p[|ss|]).None? && rewritten == ss
    ensures forall i :: 0 <= i < |ss| ==>
      rewritten[i] == if ss[i].up == p[|ss|] then Section(x, ss[i].down, rd(ss[i].distance, distance)) else ss[i]
    ensures IsChain(rewritten + [Section(p[|ss|], x, distance)], p[..|ss| + 1] + [x] + p[|ss| + 1..])
  {
    ChainExtendTail(ss, p, x, distance);
    assert p[..|ss| + 1] + [x] + p[|ss| + 1..] == p + [x];
  }

  /**
   * Splicing a new station `x` in right before the station at position `k`:
   * the first section entering that station, if any, is rewritten to enter
   * `x`, and the section from `x` to the station is appended.
   */
  lemma InsertBeforeOnChain(ss: seq<Section>, p: seq<Station>, k: nat, x: Station, distance: int,
                            rd: (int, int) -> int, rewritten: seq<Section>)
    requires IsChain(ss, p) && k < |p| && x !in p
    requires match SameDownStationSection(ss, p[k])
      case None => rewritten == ss
      case Some(j) => rewritten == ss[j := Section(ss[j].up, x, rd(ss[j].distance, distance))]
    ensures |rewritten| == |ss|
    ensures forall i :: 0 <= i < |ss| ==>
      rewritten[i] == if ss[i].down == p[k] then Section(ss[i].up, x, rd(ss[i].distance, distance)) else ss[i]
    ensures IsChain(rewritten + [Section(x, p[k], distance)], p[..k] + [x] + p[k..])
  {
    DownMatchOnChain(ss, p, k);
    if 0 < k {
      var j := SameDownStationSection(ss, p[k]).value;
      InsertBeforeInterior(ss, p, k, j, x, distance, rd, rewritten);
    } else {
      InsertBeforeHead(ss, p, x, distance, rd, rewritten);
    }
  }

  /** The case of `InsertBeforeOnChain` at the first station, which no section enters. */
  lemma InsertBeforeHead(ss: seq<Section>, p: seq<Station>, x: Station, distance: int,
                         rd: (int, int) -> int, rewritten: seq<Section>)
    requires IsChain(ss, p) && x !in p
    requires SameDownStationSection(ss, p[0]).None? && rewritten == ss
    ensures forall i :: 0 <= i < |ss| ==>
      rewritten[i] == if ss[i].down == p[0] then Section(ss[i].up, x, rd(ss[i].distance, distance)) else ss[i]
    ensures IsChain(rewritten + [Section(x, p[0], distance)], p[..0] + [x] + p[0..])
  {
    ChainExtendHead(ss, p, x, distance);
    assert p[..0] + [x] + p[0..] == [x] + p;
  }

  /** The case of `InsertBeforeOnChain` where a section enters the station, at index `j`. */
  lemma InsertBeforeInterior(ss: seq<Section>, p: seq<Station>, k: nat, j: nat, x: Station, distance: int,
                             rd: (int, int) -> int, rewritten: seq<Section>)
    requires IsChain(ss, p) && 0 < k < |p| && x !in p
    requires j < |ss| && ss[j].up == p[k - 1] && ss[j].down == p[k]
    requires rewritten == ss[j := Section(ss[j].up, x, rd(ss[j].distance, distance))]
    ensures forall i :: 0 <= i < |ss| ==>
      rewritten[i] == if ss[i].down == p[k] then Section(ss[i].up, x, rd(ss[i].distance, distance)) else ss[i]
    ensures IsChain(rewritten + [Section(x, p[k], distance)], p[..k] + [x] + p[k..])
  {
    forall i | 0 <= i < |ss| && i != j ensures ss[i].down != p[k] {
      TouchingOnChain(ss, p, k, i);
      assert ss[i].up != ss[j].up;
    }
    ChainSplit(ss, p, k - 1, j, x, rewritten[j], Section(x, p[k], distance));
    assert p[..k - 1 + 1] == p[..k] && p[k - 1 + 1..] == p[k..];
  }

  /**
   * Removing the interior station at position `k` the way the line does it:
   * append the bridging section, drop the section leaving the station, then
   * the one entering it. What is left is the untouched sections followed by
   * the bridge, and it is a chain of the order without the station.
   */
  lemma RemoveInteriorOnChain(ss: seq<Section>, p: seq<Station>, k: nat, iu: nat, id: nat, m: Section)
    requires IsChain(ss, p) && 0 < k < |ss|
    requires SameUpStationSection(ss, p[k]) == Some(iu) && SameDownStationSection(ss, p[k]) == Some(id)
    requires m.up == p[k - 1] && m.down == p[k + 1]
    ensures iu != id
    ensures RemoveAt(RemoveAt(ss + [m], iu), if iu < id then id - 1 else id) == Untouched(ss, p[k]) + [m]
    ensures IsChain(Untouched(ss, p[k]) + [m], p[..k] + p[k + 1..])
  {
    var iu', id' := InteriorNeighbours(ss, p, k);
    RemoveTwoTouchers(ss, p[k], iu, id, m);
    UntouchedUpsDistinct(ss, p[k]);
    ChainMerge(ss, p, k, Untouched(ss, p[k]), m);
  }

  /** The two sections at an interior station, and no other section touching it. */
  lemma InteriorNeighbours(ss: seq<Section>, p: seq<Station>, k: nat) returns (iu: nat, id: nat)
    requires IsChain(ss, p) && 0 < k < |ss|
    ensures SameUpStationSection(ss, p[k]) == Some(iu) && SameDownStationSection(ss, p[k]) == Some(id)
    ensures iu < |ss| && id < |ss| && iu != id
    ensures ss[iu].up == p[k] && ss[iu].down == p[k + 1]
    ensures ss[id].up == p[k - 1] && ss[id].down == p[k]
    ensures forall t :: 0 <= t < |ss| && t != iu && t != id ==> !Touches(ss[t], p[k])
  {
    UpMatchOnChain(ss, p, k);
    DownMatchOnChain(ss, p, k);
    iu := SameUpStationSection(ss, p[k]).value;
    id := SameDownStationSection(ss, p[k]).value;
    forall t | 0 <= t < |ss| && t != iu && t != id ensures !Touches(ss[t], p[k]) {
      TouchingOnChain(ss, p, k, t);
    }
  }

  /**
   * What removing the interior station `s`, between `pred` and `succ`,
   * relies on: both lookups find a section, two different ones; the one
   * entering `s` comes from `pred` and the one leaving it goes to `succ`;
   * their distances make up the touching total; and appending the bridge,
   * then removing the two found sections, leaves the sections avoiding `s`
   * followed by the bridge.
   */
  ghost predicate InteriorShape(ss: seq<Section>, s: Station, pred: Station, succ: Station) {
    && SameUpStationSection(ss, s).Some? && SameDownStationSection(ss, s).Some?
    && var iu, id := SameUpStationSection(ss, s).value, SameDownStationSection(ss, s).value;
       var m := Section(pred, succ, Int32(TouchingDistance(ss, s)));
       && iu != id
       && ss[id].up == pred && ss[iu].down == succ
       && ss[iu].distance + ss[id].distance == TouchingDistance(ss, s)
       && RemoveAt(RemoveAt(ss + [m], iu), if iu < id then id - 1 else id) == Untouched(ss, s) + [m]
  }

  /** Every interior station of a chain has that shape, between its predecessor and its successor. */
  lemma InteriorShaped(ss: seq<Section>, p: seq<Station>, k: nat)
    requires IsChain(ss, p) && 0 < k < |ss|
    ensures InteriorShape(ss, p[k], p[k - 1], p[k + 1])
  {
    var iu, id := InteriorNeighbours(ss, p, k);
    InteriorShapeOf(ss, p[k], p[k - 1], p[k + 1], iu, id);
  }

  /**
   * A station with exactly two touching sections, found by the two lookups,
   * one entering it from `pred` and one leaving it to `succ`, has the
   * interior shape. In particular the bridge the removal builds from the two
   * lookups runs from `pred` to `succ`, and its distance is the sum of the
   * distances of the sections touching the station, as a Java `int` holds it.
   */
  lemma InteriorShapeOf(ss: seq<Section>, s: Station, pred: Station, succ: Station, iu: nat, id: nat)
    requires SameUpStationSection(ss, s) == Some(iu) && SameDownStationSection(ss, s) == Some(id) && iu != id
    requires ss[id].up == pred && ss[iu].down == succ
    requires forall t :: 0 <= t < |ss| && t != iu && t != id ==> !Touches(ss[t], s)
    ensures InteriorShape(ss, s, pred, succ)
  {
    if iu < id {
      TouchingPair(ss, s, iu, id);
    } else {
      TouchingPair(ss, s, id, iu);
    }
    RemoveTwoTouchers(ss, s, iu, id, Section(pred, succ, Int32(TouchingDistance(ss, s))));
  }

  /** Removing the first station of a line of at least two sections drops the one section leaving it. */
  lemma RemoveFirstOnChain(ss: seq<Section>, p: seq<Station>)
    requires IsChain(ss, p) && |ss| >= 2
    ensures var iu := SameUpStationSection(ss, p[0]);
            iu.Some? && SameDownStationSection(ss, p[0]).None? &&
            RemoveAt(ss, iu.value) == Untouched(ss, p[0]) && IsChain(RemoveAt(ss, iu.value), p[1..])
  {
    UpMatchOnChain(ss, p, 0);
    DownMatchOnChain(ss, p, 0);
    var iu := SameUpStationSection(ss, p[0]).value;
    forall t | 0 <= t < |ss| && t != iu ensures !Touches(ss[t], p[0]) {
      TouchingOnChain(ss, p, 0, t);
    }
    RemoveOnlyToucher(ss, p[0], iu);
    UntouchedUpsDistinct(ss, p[0]);
    ChainDropFirst(ss, p, Untouched(ss, p[0]));
  }

  /** Removing the last station of a line of at least two sections drops the one section entering it. */
  lemma RemoveLastOnChain(ss: seq<Section>, p: seq<Station>)
    requires IsChain(ss, p) && |ss| >= 2
    ensures var id := SameDownStationSection(ss, p[|ss|]);
            id.Some? && SameUpStationSection(ss, p[|ss|]).None? &&
            RemoveAt(ss, id.value) == Untouched(ss, p[|ss|]) && IsChain(RemoveAt(ss, id.value), p[..|ss|])
  {
    var n := |ss|;
    UpMatchOnChain(ss, p, n);
    DownMatchOnChain(ss, p, n);
    var id := SameDownStationSection(ss, p[n]).value;
    forall t | 0 <= t < n && t != id ensures !Touches(ss[t], p[n]) {
      TouchingOnChain(ss, p, n, t);
    }
    RemoveOnlyToucher(ss, p[n], id);
    UntouchedUpsDistinct(ss, p[n]);
    ChainDropLast(ss, p, Untouched(ss, p[n]));
  }

  /**
   * On an empty line the validation lets a section from a station to itself
   * through; the line it seeds has no chain, and the backward walk for the
   * first station steps from that station back to itself.
   */
  lemma SelfLoopSeed(s: Station, distance: int)
    ensures Validate([], IsStationExisted(s, []), IsStationExisted(s, [])) == Pass
    ensures SameDownStationSection([Section(s, s, distance)], s) == Some(0)
    ensures [Section(s, s, distance)][SameDownStationSection([Section(s, s, distance)], s).value].up == s
    ensures forall p :: !IsChain([Section(s, s, distance)], p)
  {
    forall p ensures !IsChain([Section(s, s, distance)], p) {
      if IsChain([Section(s, s, distance)], p) {
        var k := SectionAt([Section(s, s, distance)], p, 0);
      }
    }
  }
}
