/**
 * `get_time_of_day` and the pandas `groupby(...).agg(count, set)` that
 * `group_similar_trips` performs, with the `trip_count > 1` filter.
 * The grouping is generic in the key type, so the weekly average reuses it
 * for `groupby("week_year").size()`.
 */
module Grouping {
  import opened Wrappers

  datatype TimeOfDay = Morning | Afternoon | Night

  /** `get_time_of_day`: morning from 5 to 11 o'clock, afternoon from 12 to 18, night otherwise. */
  function TimeOfDayOf(hour: int): (t: TimeOfDay)
    ensures t == Morning <==> 5 <= hour < 12
    ensures t == Afternoon <==> 12 <= hour <= 18
    ensures t == Night <==> hour < 5 || 18 < hour
  {
    if 5 <= hour < 12 then Morning
    else if 12 <= hour <= 18 then Afternoon
    else Night
  }

  /** One row as `groupby` sees it: its key columns and its `datasource`. */
  datatype Keyed<K> = Keyed(key: K, datasource: string)

  /** One row of the grouped frame: the key, `trip_count`, and the set joined into `datasources`. */
  datatype Group<K> = Group(key: K, count: nat, datasources: set<string>)

  /** How many rows carry key `k`. */
  function CountOf<K(==)>(rows: seq<Keyed<K>>, k: K): nat {
    if rows == [] then 0
    else CountOf(rows[..|rows| - 1], k) + (if rows[|rows| - 1].key == k then 1 else 0)
  }

  /** The datasources of the rows that carry key `k`. */
  function SourcesOf<K(==)>(rows: seq<Keyed<K>>, k: K): set<string> {
    if rows == [] then {}
    else SourcesOf(rows[..|rows| - 1], k) + (if rows[|rows| - 1].key == k then {rows[|rows| - 1].datasource} else {})
  }

  /** The keys that occur in the rows. */
  function KeysOf<K(==)>(rows: seq<Keyed<K>>): set<K> {
    if rows == [] then {} else KeysOf(rows[..|rows| - 1]) + {rows[|rows| - 1].key}
  }

  /** The keys of the grouped frame. */
  function GroupKeys<K(==)>(groups: seq<Group<K>>): set<K> {
    set j | 0 <= j < |groups| :: groups[j].key
  }

  predicate DistinctKeys<K(==)>(groups: seq<Group<K>>) {
    forall i, j :: 0 <= i < j < |groups| ==> groups[i].key != groups[j].key
  }

  /**
   * `groups` is a grouping of `rows`: one group per key that occurs, none other,
   * each with the number of rows and the set of datasources under its key.
   */
  predicate IsGrouping<K(==)>(groups: seq<Group<K>>, rows: seq<Keyed<K>>) {
    DistinctKeys(groups) && GroupKeys(groups) == KeysOf(rows) &&
    forall j :: 0 <= j < |groups| ==>
      groups[j].count == CountOf(rows, groups[j].key) && groups[j].datasources == SourcesOf(rows, groups[j].key)
  }

  /** The position of the group with key `k`, if there is one. */
  function FindKey<K(==)>(groups: seq<Group<K>>, k: K): (r: Option<nat>)
    ensures r.Some? ==> r.value < |groups| && groups[r.value].key == k
    ensures r.None? ==> k !in GroupKeys(groups)
  {
    if groups == [] then None
    else if groups[0].key == k then Some(0)
    else
      match FindKey(groups[1..], k)
      case None =>
        assert forall j :: 1 <= j < |groups| ==> groups[j] == groups[1..][j - 1];
        None
      case Some(i) => Some(i + 1)
  }

  /** One more row: its group counts it and records its datasource, or a new group starts. */
  function Add<K(==)>(groups: seq<Group<K>>, r: Keyed<K>): seq<Group<K>> {
    match FindKey(groups, r.key)
    case Some(i) => groups[i := Group(r.key, groups[i].count + 1, groups[i].datasources + {r.datasource})]
    case None => groups + [Group(r.key, 1, {r.datasource})]
  }

  /**
   * `df.groupby(key).agg(trip_count=("datasource", "count"), datasources=(..., set))`,
   * with groups in order of first appearance.
   */
  function GroupBy<K(==)>(rows: seq<Keyed<K>>): (groups: seq<Group<K>>)
    ensures IsGrouping(groups, rows)
  {
    if rows == [] then []
    else
      var init, last := rows[..|rows| - 1], rows[|rows| - 1];
      var groups := GroupBy(init);
      AddGrouping(groups, init, last);
      assert init + [last] == rows;
      Add(groups, last)
  }

  /** The accumulation `groupby(...).agg(...)` performs: one pass over the rows, filling the groups. */
  method GroupRows<K(==)>(rows: seq<Keyed<K>>) returns (groups: seq<Group<K>>)
    ensures groups == GroupBy(rows)
    ensures IsGrouping(groups, rows)
  {
    groups := [];
    var i := 0;
    while i < |rows|
      invariant i <= |rows|
      invariant groups == GroupBy(rows[..i])
    {
      assert rows[..i + 1][..i] == rows[..i];
      groups := Add(groups, rows[i]);
      i := i + 1;
    }
    assert rows[..i] == rows;
  }

  lemma CountOfSnoc<K>(rows: seq<Keyed<K>>, r: Keyed<K>, k: K)
    ensures CountOf(rows + [r], k) == CountOf(rows, k) + (if r.key == k then 1 else 0)
    ensures SourcesOf(rows + [r], k) == SourcesOf(rows, k) + (if r.key == k then {r.datasource} else {})
    ensures KeysOf(rows + [r]) == KeysOf(rows) + {r.key}
  {
    assert (rows + [r])[..|rows|] == rows;
  }

  /** Adding a row whose key already has a group. */
  lemma AddToGroup<K>(groups: seq<Group<K>>, rows: seq<Keyed<K>>, r: Keyed<K>, i: nat)
    requires IsGrouping(groups, rows)
    requires i < |groups| && groups[i].key == r.key
    ensures IsGrouping(groups[i := Group(r.key, groups[i].count + 1, groups[i].datasources + {r.datasource})], rows + [r])
  {
    var g := Group(r.key, groups[i].count + 1, groups[i].datasources + {r.datasource});
    var next := groups[i := g];
    forall k ensures CountOf(rows + [r], k) == CountOf(rows, k) + (if r.key == k then 1 else 0)
      && SourcesOf(rows + [r], k) == SourcesOf(rows, k) + (if r.key == k then {r.datasource} else {})
    {
      CountOfSnoc(rows, r, k);
    }
    CountOfSnoc(rows, r, r.key);
    assert GroupKeys(next) == GroupKeys(groups) by {
      assert forall j :: 0 <= j < |next| ==> next[j].key == groups[j].key;
    }
  }

  /** Adding a row whose key has no group yet. */
  lemma AddNewGroup<K>(groups: seq<Group<K>>, rows: seq<Keyed<K>>, r: Keyed<K>)
    requires IsGrouping(groups, rows)
    requires r.key !in GroupKeys(groups)
    ensures IsGrouping(groups + [Group(r.key, 1, {r.datasource})], rows + [r])
  {
    var g := Group(r.key, 1, {r.datasource});
    var next := groups + [g];
    forall k ensures CountOf(rows + [r], k) == CountOf(rows, k) + (if r.key == k then 1 else 0)
      && SourcesOf(rows + [r], k) == SourcesOf(rows, k) + (if r.key == k then {r.datasource} else {})
    {
      CountOfSnoc(rows, r, k);
    }
    CountOfSnoc(rows, r, r.key);
    assert CountOf(rows, r.key) == 0 && SourcesOf(rows, r.key) == {} by {
      AbsentKey(rows, r.key);
    }
    assert GroupKeys(next) == GroupKeys(groups) + {r.key} by {
      assert forall j :: 0 <= j < |groups| ==> next[j] == groups[j];
      assert next[|groups|] == g;
    }
    assert forall j :: 0 <= j < |groups| ==> groups[j].key in GroupKeys(groups);
  }

  /** A key that never occurs has no rows and no datasources. */
  lemma {:induction false} AbsentKey<K>(rows: seq<Keyed<K>>, k: K)
    requires k !in KeysOf(rows)
    ensures CountOf(rows, k) == 0 && SourcesOf(rows, k) == {}
  {
    if rows != [] {
      AbsentKey(rows[..|rows| - 1], k);
    }
  }

  /** Adding one row keeps a grouping a grouping. */
  lemma AddGrouping<K>(groups: seq<Group<K>>, rows: seq<Keyed<K>>, r: Keyed<K>)
    requires IsGrouping(groups, rows)
    ensures IsGrouping(Add(groups, r), rows + [r])
  {
    match FindKey(groups, r.key)
    case Some(i) => AddToGroup(groups, rows, r, i);
    case None => AddNewGroup(groups, rows, r);
  }

  /** The sum of the `trip_count` column. */
  function TotalCount<K>(groups: seq<Group<K>>): nat {
    if groups == [] then 0 else groups[0].count + TotalCount(groups[1..])
  }

  lemma {:induction false} TotalCountUpdate<K>(groups: seq<Group<K>>, i: nat, g: Group<K>)
    requires i < |groups|
    ensures TotalCount(groups[i := g]) + groups[i].count == TotalCount(groups) + g.count
  {
    if i > 0 {
      assert groups[i := g][1..] == groups[1..][i - 1 := g];
      TotalCountUpdate(groups[1..], i - 1, g);
    }
  }

  lemma {:induction false} TotalCountSnoc<K>(groups: seq<Group<K>>, g: Group<K>)
    ensures TotalCount(groups + [g]) == TotalCount(groups) + g.count
  {
    if groups != [] {
      assert (groups + [g])[1..] == groups[1..] + [g];
      TotalCountSnoc(groups[1..], g);
    }
  }

  /** Adding a row adds one to the total. */
  lemma AddTotal<K>(groups: seq<Group<K>>, r: Keyed<K>)
    ensures TotalCount(Add(groups, r)) == TotalCount(groups) + 1
  {
    match FindKey(groups, r.key)
    case Some(i) =>
      TotalCountUpdate(groups, i, Group(r.key, groups[i].count + 1, groups[i].datasources + {r.datasource}));
    case None =>
      TotalCountSnoc(groups, Group(r.key, 1, {r.datasource}));
  }

  /** Every row is counted exactly once: the counts add up to the number of rows. */
  lemma {:induction false} GroupByTotal<K>(rows: seq<Keyed<K>>)
    ensures TotalCount(GroupBy(rows)) == |rows|
  {
    if rows != [] {
      var init := rows[..|rows| - 1];
      GroupByTotal(init);
      AddTotal(GroupBy(init), rows[|rows| - 1]);
    }
  }

  /** A key that occurs has at least one row. */
  lemma {:induction false} PresentKey<K>(rows: seq<Keyed<K>>, k: K)
    requires k in KeysOf(rows)
    ensures CountOf(rows, k) >= 1 && SourcesOf(rows, k) != {}
  {
    var init := rows[..|rows| - 1];
    if rows[|rows| - 1].key != k {
      PresentKey(init, k);
    }
  }

  /** No group is empty, and every group holds at least one datasource. */
  lemma GroupsNonEmpty<K>(groups: seq<Group<K>>, rows: seq<Keyed<K>>)
    requires IsGrouping(groups, rows)
    ensures forall j :: 0 <= j < |groups| ==> groups[j].count >= 1 && groups[j].datasources != {}
  {
    forall j | 0 <= j < |groups|
      ensures groups[j].count >= 1 && groups[j].datasources != {}
    {
      assert groups[j].key in GroupKeys(groups);
      PresentKey(rows, groups[j].key);
    }
  }

  /** There is one group per distinct key. */
  lemma {:induction false} DistinctKeysCount<K>(groups: seq<Group<K>>)
    requires DistinctKeys(groups)
    ensures |GroupKeys(groups)| == |groups|
  {
    if groups != [] {
      var init := groups[..|groups| - 1];
      var last := groups[|groups| - 1];
      DistinctKeysCount(init);
      assert GroupKeys(groups) == GroupKeys(init) + {last.key} by {
        assert forall j :: 0 <= j < |init| ==> init[j] == groups[j];
      }
      assert last.key !in GroupKeys(init);
    }
  }

  /** A grouping has exactly one group per distinct key of its rows. */
  lemma GroupingSize<K>(groups: seq<Group<K>>, rows: seq<Keyed<K>>)
    requires IsGrouping(groups, rows)
    ensures |groups| == |KeysOf(rows)|
  {
    DistinctKeysCount(groups);
  }

  /** There are no more keys than rows, and at least one key once there is a row. */
  lemma {:induction false} KeysOfSize<K>(rows: seq<Keyed<K>>)
    ensures |KeysOf(rows)| <= |rows|
    ensures rows != [] ==> |KeysOf(rows)| >= 1
  {
    if rows != [] {
      KeysOfSize(rows[..|rows| - 1]);
    }
  }

  lemma {:induction false} CountOfAppend<K>(a: seq<Keyed<K>>, b: seq<Keyed<K>>, k: K)
    ensures CountOf(a + b, k) == CountOf(a, k) + CountOf(b, k)
    ensures SourcesOf(a + b, k) == SourcesOf(a, k) + SourcesOf(b, k)
    ensures KeysOf(a + b) == KeysOf(a) + KeysOf(b)
  {
    if b == [] {
      assert a + b == a;
    } else {
      var init := b[..|b| - 1];
      CountOfAppend(a, init, k);
      assert (a + b)[..|a + b| - 1] == a + init;
    }
  }

  /** Two groupings of the same rows hold the same groups, in whatever order. */
  lemma GroupingUnique<K>(g1: seq<Group<K>>, g2: seq<Group<K>>, rows: seq<Keyed<K>>)
    requires IsGrouping(g1, rows) && IsGrouping(g2, rows)
    ensures forall g :: g in g1 <==> g in g2
  {
    forall g | g in g1 ensures g in g2 {
      var i :| 0 <= i < |g1| && g1[i] == g;
      assert g.key in GroupKeys(g2);
      var j :| 0 <= j < |g2| && g2[j].key == g.key;
    }
    forall g | g in g2 ensures g in g1 {
      var j :| 0 <= j < |g2| && g2[j] == g;
      assert g.key in GroupKeys(g1);
      var i :| 0 <= i < |g1| && g1[i].key == g.key;
    }
  }

  /** Removing the last row of `a` and a copy of it from `b` keeps the multisets equal. */
  lemma RemoveMatching<T>(a: seq<T>, b: seq<T>, i: nat)
    requires multiset(a) == multiset(b) && a != []
    requires i < |b| && b[i] == a[|a| - 1]
    ensures multiset(a[..|a| - 1]) == multiset(b[..i] + b[i + 1..])
  {
    var init, last := a[..|a| - 1], a[|a| - 1];
    var b1, b2 := b[..i], b[i + 1..];
    assert a == init + [last];
    assert b == b1 + [last] + b2;
    forall x ensures multiset(init)[x] == multiset(b1 + b2)[x] {
      assert multiset(a)[x] == multiset(init)[x] + multiset{last}[x];
      assert multiset(b)[x] == multiset(b1)[x] + multiset{last}[x] + multiset(b2)[x];
    }
  }

  /** The counts, the datasources and the keys depend only on the multiset of rows. */
  lemma {:induction false} PermutationCounts<K>(a: seq<Keyed<K>>, b: seq<Keyed<K>>, k: K)
    requires multiset(a) == multiset(b)
    ensures CountOf(a, k) == CountOf(b, k)
    ensures SourcesOf(a, k) == SourcesOf(b, k)
    ensures KeysOf(a) == KeysOf(b)
    decreases |a|
  {
    if a == [] {
      assert |b| == |multiset(b)| == 0;
    } else {
      var init, last := a[..|a| - 1], a[|a| - 1];
      assert last in multiset(b);
      var i :| 0 <= i < |b| && b[i] == last;
      var b1, b2 := b[..i], b[i + 1..];
      RemoveMatching(a, b, i);
      PermutationCounts(init, b1 + b2, k);
      assert a == init + [last];
      assert b == (b1 + [last]) + b2;
      CountOfSnoc(init, last, k);
      CountOfSnoc(b1, last, k);
      CountOfAppend(b1 + [last], b2, k);
      CountOfAppend(b1, b2, k);
    }
  }

  /** Reordering the rows in any way leaves the groups as they are, up to their order. */
  lemma GroupByOrderIndependent<K>(a: seq<Keyed<K>>, b: seq<Keyed<K>>)
    requires multiset(a) == multiset(b)
    ensures forall g :: g in GroupBy(a) <==> g in GroupBy(b)
  {
    var g1, g2 := GroupBy(a), GroupBy(b);
    forall k ensures CountOf(a, k) == CountOf(b, k) && SourcesOf(a, k) == SourcesOf(b, k)
      && KeysOf(a) == KeysOf(b)
    {
      PermutationCounts(a, b, k);
    }
    assert IsGrouping(g1, b);
    GroupingUnique(g1, g2, b);
  }

  /** `grouped_df[grouped_df["trip_count"] > 1]`: the groups with more than one row, in order. */
  function MoreThanOne<K>(groups: seq<Group<K>>): (r: seq<Group<K>>)
    ensures forall i :: 0 <= i < |r| ==> r[i] in groups && r[i].count > 1
    ensures forall i :: 0 <= i < |groups| && groups[i].count > 1 ==> groups[i] in r
    ensures |r| <= |groups|
  {
    if groups == [] then []
    else (if groups[0].count > 1 then [groups[0]] else []) + MoreThanOne(groups[1..])
  }

  /** A key is among the shared trips exactly when at least two rows carry it. */
  lemma MoreThanOneOfGrouping<K>(groups: seq<Group<K>>, rows: seq<Keyed<K>>, k: K)
    requires IsGrouping(groups, rows)
    ensures (exists g :: g in MoreThanOne(groups) && g.key == k) <==> CountOf(rows, k) >= 2
  {
    if CountOf(rows, k) >= 2 {
      if k !in KeysOf(rows) {
        AbsentKey(rows, k);
      }
      assert k in GroupKeys(groups);
      var j :| 0 <= j < |groups| && groups[j].key == k;
      assert groups[j] in MoreThanOne(groups);
    }
  }

  /** Two trips under one key from two datasources form one group of two. */
  lemma TwoTripsOneGroup<K>(k: K, s1: string, s2: string)
    ensures GroupBy([Keyed(k, s1), Keyed(k, s2)]) == [Group(k, 2, {s1, s2})]
    ensures MoreThanOne(GroupBy([Keyed(k, s1), Keyed(k, s2)])) == [Group(k, 2, {s1, s2})]
  {
    var rows := [Keyed(k, s1), Keyed(k, s2)];
    assert rows[..1] == [Keyed(k, s1)];
    assert [Keyed(k, s1)][..0] == [];
    assert GroupBy([Keyed(k, s1)]) == [Group(k, 1, {s1})];
    assert FindKey([Group(k, 1, {s1})], k) == Some(0);
    assert GroupBy(rows) == Add(GroupBy(rows[..1]), rows[1]);
    assert Add([Group(k, 1, {s1})], Keyed(k, s2)) == [Group(k, 2, {s1} + {s2})];
    assert {s1} + {s2} == {s1, s2};
  }
}
