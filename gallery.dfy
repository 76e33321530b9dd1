/**
 * `get_user_gallery`'s grouping: the rows of one user's sightings, newest
 * first, folded into an insertion-ordered dictionary from target name to a
 * counter of sightings, a sum of points and a list of photos.
 *
 * The dictionary is modelled as a `map` together with the order in which its
 * keys were first inserted, which is the order Python iterates a `dict` in.
 */
module Gallery {
  import opened Seqs

  /** One row of the gallery query: a sighting joined with its target's name. */
  datatype Row = Row(sightingId: int, name: string, points: int, fileId: string, stamp: int)

  datatype Photo = Photo(fileId: string, sightingId: int)

  /** The counters kept per target name. */
  datatype Stats = Stats(count: int, points: int, photos: seq<Photo>)

  // ---------------------------------------------------------------------------
  // Reference definition: each name on its own

  /** The rows about target `n`, in their original order. */
  function RowsNamed(rows: seq<Row>, n: string): (r: seq<Row>)
    ensures |r| <= |rows|
    ensures forall k :: 0 <= k < |r| ==> r[k].name == n
  {
    if rows == [] then []
    else
      RowsNamed(rows[..|rows| - 1], n)
      + if rows[|rows| - 1].name == n then [rows[|rows| - 1]] else []
  }

  function SumPoints(rows: seq<Row>): int {
    if rows == [] then 0 else SumPoints(rows[..|rows| - 1]) + rows[|rows| - 1].points
  }

  lemma {:induction false} SumPointsCons(x: Row, rows: seq<Row>)
    ensures SumPoints([x] + rows) == x.points + SumPoints(rows)
  {
    if rows != [] {
      var init := rows[..|rows| - 1];
      SumPointsCons(x, init);
      assert ([x] + rows)[..|rows|] == [x] + init;
    }
  }

  function PhotosOf(rows: seq<Row>): (r: seq<Photo>)
    ensures |r| == |rows|
    ensures forall k :: 0 <= k < |rows| ==> r[k] == Photo(rows[k].fileId, rows[k].sightingId)
  {
    seq(|rows|, k requires 0 <= k < |rows| => Photo(rows[k].fileId, rows[k].sightingId))
  }

  /** The counters of target `n`: as many sightings as rows about it, their
    * points added up, their photos in row order. */
  function StatsOf(rows: seq<Row>, n: string): (r: Stats)
    ensures r.count == |r.photos|
  {
    var rs := RowsNamed(rows, n);
    Stats(|rs|, SumPoints(rs), PhotosOf(rs))
  }

  /** The names the rows carry. */
  function NameSet(rows: seq<Row>): set<string> {
    if rows == [] then {} else NameSet(rows[..|rows| - 1]) + {rows[|rows| - 1].name}
  }

  /** The names of the rows, each once, in order of first occurrence. */
  function NamesInOrder(rows: seq<Row>): (r: seq<string>)
    ensures forall n :: n in r <==> n in NameSet(rows)
    ensures forall i, j :: 0 <= i < j < |r| ==> r[i] != r[j]
  {
    if rows == [] then []
    else
      var init := rows[..|rows| - 1];
      var last := rows[|rows| - 1];
      assert rows == init + [last];
      var prev := NamesInOrder(init);
      if last.name in prev then prev else prev + [last.name]
  }

  // ---------------------------------------------------------------------------
  // One more row

  lemma NameSetSnoc(rows: seq<Row>, x: Row)
    ensures NameSet(rows + [x]) == NameSet(rows) + {x.name}
  {
    assert (rows + [x])[..|rows|] == rows;
  }

  /** A name no row carries has no rows. */
  lemma {:induction false} StatsOfAbsent(rows: seq<Row>, n: string)
    requires n !in NameSet(rows)
    ensures RowsNamed(rows, n) == []
  {
    if rows != [] {
      StatsOfAbsent(rows[..|rows| - 1], n);
    }
  }

  /** The counters after taking in one more row: one more sighting, its
    * points added, its photo appended. */
  function Take(s: Stats, x: Row): Stats {
    Stats(s.count + 1, s.points + x.points, s.photos + [Photo(x.fileId, x.sightingId)])
  }

  lemma StatsOfSnoc(rows: seq<Row>, x: Row, n: string)
    ensures StatsOf(rows + [x], n) == if x.name == n then Take(StatsOf(rows, n), x) else StatsOf(rows, n)
  {
    assert (rows + [x])[..|rows|] == rows;
    var rs := RowsNamed(rows, n);
    if x.name == n {
      assert RowsNamed(rows + [x], n) == rs + [x];
      assert (rs + [x])[..|rs|] == rs;
      assert SumPoints(rs + [x]) == SumPoints(rs) + x.points;
      assert PhotosOf(rs + [x]) == PhotosOf(rs) + [Photo(x.fileId, x.sightingId)];
    } else {
      assert RowsNamed(rows + [x], n) == rs;
    }
  }

  /** One step of the loop keeps the counters equal to the reference. */
  lemma GroupStep(rows: seq<Row>, x: Row, after: seq<Row>, stats: map<string, Stats>, cur: Stats, next: map<string, Stats>)
    requires after == rows + [x]
    requires stats.Keys == NameSet(rows)
    requires forall n | n in stats :: stats[n] == StatsOf(rows, n)
    requires cur == if x.name in stats then stats[x.name] else Stats(0, 0, [])
    requires next == stats[x.name := Take(cur, x)]
    ensures next.Keys == NameSet(after)
    ensures forall n | n in next :: next[n] == StatsOf(after, n)
  {
    NameSetSnoc(rows, x);
    GroupStepValues(rows, x, after, stats, cur, next);
  }

  lemma GroupStepValues(rows: seq<Row>, x: Row, after: seq<Row>, stats: map<string, Stats>, cur: Stats, next: map<string, Stats>)
    requires after == rows + [x]
    requires stats.Keys == NameSet(rows)
    requires forall n | n in stats :: stats[n] == StatsOf(rows, n)
    requires cur == if x.name in stats then stats[x.name] else Stats(0, 0, [])
    requires next == stats[x.name := Take(cur, x)]
    ensures forall n | n in next :: next[n] == StatsOf(after, n)
  {
    if x.name !in stats {
      StatsOfAbsent(rows, x.name);
    }
    forall n | n in next ensures next[n] == StatsOf(after, n) {
      StatsOfSnoc(rows, x, n);
    }
  }

  lemma NamesInOrderSnoc(rows: seq<Row>, x: Row)
    ensures NamesInOrder(rows + [x])
            == if x.name in NameSet(rows) then NamesInOrder(rows) else NamesInOrder(rows) + [x.name]
  {
    assert (rows + [x])[..|rows|] == rows;
  }

  // ---------------------------------------------------------------------------
  // The grouping loop

  /** The reference grouping: each name of `rows` with its counters. */
  ghost function StatsByName(rows: seq<Row>): map<string, Stats> {
    map n | n in NameSet(rows) :: StatsOf(rows, n)
  }

  /** A gallery has no groups exactly when it has no rows. */
  lemma NamesInOrderEmpty(rows: seq<Row>)
    ensures NamesInOrder(rows) == [] <==> rows == []
  {
    if rows != [] {
      var x := rows[|rows| - 1];
      SplitLast(rows);
      NameSetSnoc(rows[..|rows| - 1], x);
      assert x.name in NameSet(rows);
    }
  }

  /** Walks the rows once; a name met for the first time gets zeroed counters
    * (the `defaultdict` factory) and is appended to the key order, then its
    * counters take the row in. The result agrees with the reference
    * definition for every name. */
  method GroupByName(rows: seq<Row>) returns (order: seq<string>, stats: map<string, Stats>)
    ensures order == NamesInOrder(rows)
    ensures stats.Keys == NameSet(rows)
    ensures forall n | n in stats :: stats[n] == StatsOf(rows, n)
  {
    order, stats := [], map[];
    assert rows[..0] == [];
    for i := 0 to |rows|
      invariant order == NamesInOrder(rows[..i])
      invariant stats.Keys == NameSet(rows[..i])
      invariant forall n | n in stats :: stats[n] == StatsOf(rows[..i], n)
    {
      var s := rows[i];
      PrefixSnoc(rows, i);
      NamesInOrderSnoc(rows[..i], s);
      var cur := Stats(0, 0, []);
      if s.name in stats {
        cur := stats[s.name];
      } else {
        order := order + [s.name];
      }
      var next := stats[s.name := Take(cur, s)];
      GroupStep(rows[..i], s, rows[..i + 1], stats, cur, next);
      stats := next;
    }
    assert rows[..|rows|] == rows;
  }

  // ---------------------------------------------------------------------------
  // Properties of the groups

  /** The points of the groups listed in `ns`. */
  function GroupPoints(rows: seq<Row>, ns: seq<string>): int {
    if ns == [] then 0 else GroupPoints(rows, ns[..|ns| - 1]) + StatsOf(rows, ns[|ns| - 1]).points
  }

  lemma GroupPointsAppend(rows: seq<Row>, ns: seq<string>, n: string)
    ensures GroupPoints(rows, ns + [n]) == GroupPoints(rows, ns) + StatsOf(rows, n).points
  {
    InitOfSnoc(ns, n);
  }

  lemma {:induction false} GroupPointsSnoc(rows: seq<Row>, x: Row, ns: seq<string>)
    requires forall i, j :: 0 <= i < j < |ns| ==> ns[i] != ns[j]
    ensures GroupPoints(rows + [x], ns)
            == GroupPoints(rows, ns) + if x.name in ns then x.points else 0
  {
    if ns != [] {
      var init := ns[..|ns| - 1];
      var last := ns[|ns| - 1];
      SplitLast(ns);
      GroupPointsSnoc(rows, x, init);
      StatsOfSnoc(rows, x, last);
      if x.name == last {
        assert x.name !in init;
      }
    }
  }

  /** The groups' points add up to the points of all rows: grouping loses
    * and duplicates nothing. */
  lemma {:induction false} GroupPointsTotal(rows: seq<Row>)
    ensures GroupPoints(rows, NamesInOrder(rows)) == SumPoints(rows)
  {
    if rows != [] {
      var init := rows[..|rows| - 1];
      var x := rows[|rows| - 1];
      SplitLast(rows);
      var ns := NamesInOrder(init);
      GroupPointsTotal(init);
      NamesInOrderSnoc(init, x);
      GroupPointsSnoc(init, x, ns);
      if x.name !in NameSet(init) {
        StatsOfAbsent(init, x.name);
        StatsOfSnoc(init, x, x.name);
        GroupPointsAppend(rows, ns, x.name);
      }
    }
  }

  /** Within each group the rows keep the order of the query, so photos listed
    * newest first stay newest first. */
  lemma {:induction false} RowsNamedNewestFirst(rows: seq<Row>, n: string)
    requires forall i, j :: 0 <= i < j < |rows| ==> rows[i].stamp >= rows[j].stamp
    ensures forall i, j :: 0 <= i < j < |RowsNamed(rows, n)| ==> RowsNamed(rows, n)[i].stamp >= RowsNamed(rows, n)[j].stamp
  {
    if rows != [] {
      var init := rows[..|rows| - 1];
      RowsNamedNewestFirst(init, n);
      RowsNamedSubset(init, n);
    }
  }

  lemma {:induction false} RowsNamedSubset(rows: seq<Row>, n: string)
    ensures forall k :: 0 <= k < |RowsNamed(rows, n)| ==> RowsNamed(rows, n)[k] in rows
  {
    if rows != [] {
      var init := rows[..|rows| - 1];
      RowsNamedSubset(init, n);
      forall k | 0 <= k < |RowsNamed(init, n)| ensures RowsNamed(init, n)[k] in rows {
        assert RowsNamed(init, n)[k] in init;
      }
    }
  }
}
