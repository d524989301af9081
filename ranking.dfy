/** The ranking chain of the submit handler in app.js: every institution
    gets its distance to the user's position, the list is sorted by that
    distance and the first RESULT_COUNT are kept. The haversine distance
    itself is a parameter. */
module Ranking {
  import opened Common
  import opened AddressSearch
  import opened Institutions

  /** RESULT_COUNT */
  const ResultCount: nat := 10

  /** `{ ...item, distanceKm }` */
  datatype Ranked = Ranked(institution: Institution, distanceKm: real)

  /** `haversineKm(user.lat, user.lon, position.lat, position.lon)`, left abstract. */
  type DistanceKm = (Place, Position) -> real

  predicate AllPositioned(items: seq<Institution>) {
    forall i :: 0 <= i < |items| ==> items[i].position.Some?
  }

  /** The `map` step: each record paired with its own distance. */
  function WithDistances(items: seq<Institution>, user: Place, distanceKm: DistanceKm): (r: seq<Ranked>)
    requires AllPositioned(items)
    ensures |r| == |items|
    ensures forall i :: 0 <= i < |r| ==> r[i] == Ranked(items[i], distanceKm(user, items[i].position.value))
  {
    seq(|items|, i requires 0 <= i < |items| => Ranked(items[i], distanceKm(user, items[i].position.value)))
  }

  predicate SortedByDistance(s: seq<Ranked>) {
    forall i, j :: 0 <= i < j < |s| ==> s[i].distanceKm <= s[j].distanceKm
  }

  /** Index of the first element of `s` that is not nearer than `x`. */
  function InsertPos(x: Ranked, s: seq<Ranked>): (p: nat)
    ensures p <= |s|
    ensures forall i :: 0 <= i < p ==> s[i].distanceKm < x.distanceKm
    ensures p < |s| ==> x.distanceKm <= s[p].distanceKm
  {
    if s == [] || x.distanceKm <= s[0].distanceKm then 0 else 1 + InsertPos(x, s[1..])
  }

  /** Putting `x` at a position where everything before is nearer and
      everything after is not keeps the order. */
  lemma InsertSorted(x: Ranked, s: seq<Ranked>, p: nat)
    requires SortedByDistance(s) && p <= |s|
    requires forall i :: 0 <= i < p ==> s[i].distanceKm < x.distanceKm
    requires p < |s| ==> x.distanceKm <= s[p].distanceKm
    ensures SortedByDistance(s[..p] + [x] + s[p..])
  {
    var r := s[..p] + [x] + s[p..];
    assert forall i :: 0 <= i < p ==> r[i] == s[i];
    assert r[p] == x;
    assert forall i :: p < i < |r| ==> r[i] == s[i - 1];
    forall i, j | 0 <= i < j < |r|
      ensures r[i].distanceKm <= r[j].distanceKm
    {
      if j < p {
        assert r[i] == s[i] && r[j] == s[j];
      } else if j == p {
        assert r[i] == s[i];
      } else if i < p {
        assert r[i] == s[i] && r[j] == s[j - 1];
      } else if i == p {
        assert r[j] == s[j - 1];
      } else {
        assert r[i] == s[i - 1] && r[j] == s[j - 1];
      }
    }
  }

  /** Places `x` before the first element that is not nearer than it. */
  function Insert(x: Ranked, s: seq<Ranked>): (r: seq<Ranked>)
    requires SortedByDistance(s)
    ensures SortedByDistance(r)
    ensures |r| == |s| + 1
    ensures multiset(r) == multiset(s) + multiset{x}
  {
    var p := InsertPos(x, s);
    InsertSorted(x, s, p);
    assert s == s[..p] + s[p..];
    s[..p] + [x] + s[p..]
  }

  /** `.sort((a, b) => a.distanceKm - b.distanceKm)`: a stable sort, here by insertion. */
  function SortByDistance(s: seq<Ranked>): (r: seq<Ranked>)
    ensures SortedByDistance(r)
    ensures |r| == |s|
    ensures multiset(r) == multiset(s)
  {
    if s == [] then []
    else
      assert s == [s[0]] + s[1..];
      Insert(s[0], SortByDistance(s[1..]))
  }

  /** The elements of `s` at distance `d`, in their order in `s`. */
  function AtDistance(s: seq<Ranked>, d: real): seq<Ranked> {
    if s == [] then []
    else (if s[0].distanceKm == d then [s[0]] else []) + AtDistance(s[1..], d)
  }

  lemma {:induction false} AtDistanceAppend(a: seq<Ranked>, b: seq<Ranked>, d: real)
    ensures AtDistance(a + b, d) == AtDistance(a, d) + AtDistance(b, d)
    decreases |a|
  {
    if a == [] {
      assert a + b == b;
    } else {
      var head := if a[0].distanceKm == d then [a[0]] else [];
      assert (a + b)[0] == a[0];
      assert (a + b)[1..] == a[1..] + b;
      assert AtDistance(a + b, d) == head + AtDistance(a[1..] + b, d);
      AtDistanceAppend(a[1..], b, d);
      assert AtDistance(a, d) == head + AtDistance(a[1..], d);
    }
  }

  lemma {:induction false} AtDistanceNone(s: seq<Ranked>, d: real)
    requires forall i :: 0 <= i < |s| ==> s[i].distanceKm < d
    ensures AtDistance(s, d) == []
    decreases |s|
  {
    if s != [] {
      AtDistanceNone(s[1..], d);
    }
  }

  /** Putting `x` after entries all nearer than it adds it in front of the
      entries already at its distance. */
  lemma TiesOfSplice(x: Ranked, nearer: seq<Ranked>, rest: seq<Ranked>, d: real)
    requires forall i :: 0 <= i < |nearer| ==> nearer[i].distanceKm < x.distanceKm
    ensures AtDistance(nearer + [x] + rest, d)
            == (if x.distanceKm == d then [x] else []) + AtDistance(nearer + rest, d)
  {
    AtDistanceAppend(nearer + [x], rest, d);
    AtDistanceAppend(nearer, [x], d);
    AtDistanceAppend(nearer, rest, d);
    assert [x][1..] == [];
    var own := if x.distanceKm == d then [x] else [];
    assert AtDistance([x], d) == own + AtDistance([], d);
    if x.distanceKm == d {
      AtDistanceNone(nearer, d);
    }
  }

  /** Inserting `x` adds it in front of the entries already at its distance. */
  lemma InsertKeepsTies(x: Ranked, s: seq<Ranked>, d: real)
    requires SortedByDistance(s)
    ensures AtDistance(Insert(x, s), d) == (if x.distanceKm == d then [x] else []) + AtDistance(s, d)
  {
    var p := InsertPos(x, s);
    assert Insert(x, s) == s[..p] + [x] + s[p..];
    assert forall i :: 0 <= i < p ==> s[..p][i] == s[i];
    TiesOfSplice(x, s[..p], s[p..], d);
    assert s[..p] + s[p..] == s;
  }

  /** Stability: records at the same distance keep their input order. */
  lemma {:induction false} SortIsStable(s: seq<Ranked>, d: real)
    ensures AtDistance(SortByDistance(s), d) == AtDistance(s, d)
    decreases |s|
  {
    if s != [] {
      SortIsStable(s[1..], d);
      InsertKeepsTies(s[0], SortByDistance(s[1..]), d);
    }
  }

  function Min(a: nat, b: nat): nat {
    if a <= b then a else b
  }

  /** In a sorted sequence, nothing after the first `k` elements is nearer than any of them. */
  lemma PrefixIsNearest(sorted: seq<Ranked>, k: nat)
    requires SortedByDistance(sorted) && k <= |sorted|
    ensures forall e, i :: e in multiset(sorted) - multiset(sorted[..k]) && 0 <= i < k
                           ==> sorted[i].distanceKm <= e.distanceKm
  {
    assert sorted == sorted[..k] + sorted[k..];
    assert multiset(sorted) - multiset(sorted[..k]) == multiset(sorted[k..]);
    forall e, i | e in multiset(sorted) - multiset(sorted[..k]) && 0 <= i < k
      ensures sorted[i].distanceKm <= e.distanceKm
    {
      assert e in sorted[k..];
      var j :| k <= j < |sorted| && sorted[j] == e;
    }
  }

  /** Any rearrangement of the `map` step holds input records with their own distances. */
  lemma RearrangedKeepsDistances(items: seq<Institution>, user: Place, distanceKm: DistanceKm, s: seq<Ranked>)
    requires AllPositioned(items)
    requires multiset(s) <= multiset(WithDistances(items, user, distanceKm))
    ensures forall i :: 0 <= i < |s| ==>
              s[i].institution in items
              && s[i].distanceKm == distanceKm(user, s[i].institution.position.value)
  {
    var all := WithDistances(items, user, distanceKm);
    forall i | 0 <= i < |s|
      ensures s[i].institution in items
      ensures s[i].distanceKm == distanceKm(user, s[i].institution.position.value)
    {
      assert s[i] in multiset(s);
      assert s[i] in multiset(all);
      var j :| 0 <= j < |all| && all[j] == s[i];
    }
  }

  /** The `map` / `sort` / `slice(0, RESULT_COUNT)` chain: min(10, n)
      records, nearest first, each an input record with its own distance,
      and no record left out is nearer than one kept. */
  function Nearest(items: seq<Institution>, user: Place, distanceKm: DistanceKm): (r: seq<Ranked>)
    requires AllPositioned(items)
    ensures |r| == Min(ResultCount, |items|)
    ensures SortedByDistance(r)
    ensures forall i :: 0 <= i < |r| ==>
              r[i].institution in items
              && r[i].distanceKm == distanceKm(user, r[i].institution.position.value)
    ensures multiset(r) <= multiset(WithDistances(items, user, distanceKm))
    ensures forall e, i :: (e in multiset(WithDistances(items, user, distanceKm)) - multiset(r)
                            && 0 <= i < |r|) ==> r[i].distanceKm <= e.distanceKm
  {
    var all := WithDistances(items, user, distanceKm);
    var sorted := SortByDistance(all);
    var k := Min(ResultCount, |items|);
    var r := sorted[..k];
    assert sorted == r + sorted[k..];
    PrefixIsNearest(sorted, k);
    RearrangedKeepsDistances(items, user, distanceKm, r);
    r
  }
}
