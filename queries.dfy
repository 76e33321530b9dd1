/**
 * The read-only queries over the tables: registered recipients, the
 * leaderboard and a user's rank, the catalog listing, and the two galleries.
 * Each `ORDER BY` is modelled by `Ordering.SortedKeys`, with the table's key as
 * the last tie-break, because SQLite leaves the order of ties unspecified.
 */
module Queries {
  import opened Wrappers
  import opened Text
  import opened Ordering
  import opened Store
  import Gallery

  // ---------------------------------------------------------------------------
  // Registered users

  function RegisteredIds(users: map<int, User>): (r: set<int>)
    ensures r <= users.Keys
  {
    set c | c in users && users[c].registered
  }

  /** A subset has at most as many elements. */
  lemma {:induction false} SubsetCard<T>(a: set<T>, b: set<T>)
    requires a <= b
    ensures |a| <= |b|
    decreases |a|
  {
    if a != {} {
      var x :| x in a;
      SubsetCard(a - {x}, b - {x});
    }
  }

  /** `get_registered_chat_ids`: the registered users' chat ids, each once,
    * in rowid (chat id) order. */
  function RegisteredChatIds(users: map<int, User>): (r: seq<int>)
    ensures forall c :: c in r <==> c in users && users[c].registered
    ensures forall i, j :: 0 <= i < j < |r| ==> r[i] < r[j]
  {
    SortedKeys(RegisteredIds(users), (a: int, b: int) => a < b)
  }

  datatype Contact = Contact(chatId: int, username: string, firstName: string)

  /** Username order, then chat id. */
  predicate ByUsername(users: map<int, User>, a: int, b: int) {
    a in users && b in users
    && (StrLess(users[a].username, users[b].username)
        || (users[a].username == users[b].username && a < b))
  }

  lemma ByUsernameTotal(users: map<int, User>, ks: set<int>)
    requires ks <= users.Keys
    ensures StrictTotalOn(ks, (a: int, b: int) => ByUsername(users, a, b))
  {
    StrLessIsStrictTotalOrder();
  }

  /** The chat ids of the registered users in username order. */
  function ContactOrder(users: map<int, User>): (ids: seq<int>)
    ensures forall c :: c in ids <==> c in users && users[c].registered
    ensures forall i, j :: 0 <= i < j < |ids| ==> ByUsername(users, ids[i], ids[j])
  {
    ByUsernameTotal(users, RegisteredIds(users));
    SortedKeys(RegisteredIds(users), (a: int, b: int) => ByUsername(users, a, b))
  }

  function ContactOf(users: map<int, User>, c: int): Contact
    requires c in users
  {
    Contact(c, users[c].username, users[c].firstName)
  }

  /** `get_registered_users`: the registered users' rows in username order. */
  function RegisteredContacts(users: map<int, User>): (r: seq<Contact>)
    ensures |r| == |ContactOrder(users)|
    ensures forall i :: 0 <= i < |r| ==> ContactOrder(users)[i] in users && r[i] == ContactOf(users, ContactOrder(users)[i])
  {
    var ids := ContactOrder(users);
    seq(|ids|, i requires 0 <= i < |ids| => ContactOf(users, ids[i]))
  }

  /** Every registered user is listed, and nobody else. */
  lemma RegisteredContactsMembers(users: map<int, User>)
    ensures var r := RegisteredContacts(users);
            forall c :: c in users && users[c].registered <==> exists i :: 0 <= i < |r| && r[i].chatId == c
  {
    var r, ids := RegisteredContacts(users), ContactOrder(users);
    forall c ensures c in users && users[c].registered <==> exists i :: 0 <= i < |r| && r[i].chatId == c {
      if c in ids {
        var i :| 0 <= i < |ids| && ids[i] == c;
        assert r[i].chatId == c;
      }
    }
  }

  /** No user is listed twice, and the list is sorted by username. */
  lemma RegisteredContactsSorted(users: map<int, User>)
    ensures var r := RegisteredContacts(users);
            forall i, j :: 0 <= i < j < |r| ==>
              r[i].chatId != r[j].chatId
              && (StrLess(r[i].username, r[j].username) || r[i].username == r[j].username)
  {
    var r, ids := RegisteredContacts(users), ContactOrder(users);
    forall i, j | 0 <= i < j < |r|
      ensures r[i].chatId != r[j].chatId
      ensures StrLess(r[i].username, r[j].username) || r[i].username == r[j].username
    {
      assert ByUsername(users, ids[i], ids[j]);
      StrLessIrreflexive(users[ids[i]].username);
    }
  }

  // ---------------------------------------------------------------------------
  // Leaderboard and rank

  datatype LeaderRow = LeaderRow(chatId: int, username: string, firstName: string, totalPoints: int)

  /** Points descending, then chat id. */
  predicate Outranks(users: map<int, User>, a: int, b: int) {
    a in users && b in users
    && (users[a].totalPoints > users[b].totalPoints
        || (users[a].totalPoints == users[b].totalPoints && a < b))
  }

  lemma OutranksTotal(users: map<int, User>, ks: set<int>)
    requires ks <= users.Keys
    ensures StrictTotalOn(ks, (a: int, b: int) => Outranks(users, a, b))
  {
  }

  /** The chat ids of the registered users, most points first. */
  function StandingsOrder(users: map<int, User>): (ids: seq<int>)
    ensures forall c :: c in ids <==> c in users && users[c].registered
    ensures forall i, j :: 0 <= i < j < |ids| ==> Outranks(users, ids[i], ids[j])
  {
    OutranksTotal(users, RegisteredIds(users));
    SortedKeys(RegisteredIds(users), (a: int, b: int) => Outranks(users, a, b))
  }

  function LeaderRowOf(users: map<int, User>, c: int): LeaderRow
    requires c in users
  {
    LeaderRow(c, users[c].username, users[c].firstName, users[c].totalPoints)
  }

  /** The whole leaderboard, before any `LIMIT`. */
  function Standings(users: map<int, User>): (r: seq<LeaderRow>)
    ensures |r| == |StandingsOrder(users)|
    ensures forall i :: 0 <= i < |r| ==> StandingsOrder(users)[i] in users && r[i] == LeaderRowOf(users, StandingsOrder(users)[i])
  {
    var ids := StandingsOrder(users);
    seq(|ids|, i requires 0 <= i < |ids| => LeaderRowOf(users, ids[i]))
  }

  /** The whole leaderboard lists every registered user exactly once, with
    * their own points, most points first. */
  lemma StandingsSpec(users: map<int, User>)
    ensures var r := Standings(users);
            && (forall c :: c in users && users[c].registered <==> exists i :: 0 <= i < |r| && r[i].chatId == c)
            && (forall i, j :: 0 <= i < j < |r| ==> r[i].chatId != r[j].chatId)
            && (forall i :: 0 <= i < |r| ==> r[i].chatId in users && r[i].totalPoints == users[r[i].chatId].totalPoints)
            && (forall i, j :: 0 <= i < j < |r| ==> r[i].totalPoints >= r[j].totalPoints)
  {
    var r, ids := Standings(users), StandingsOrder(users);
    forall c ensures c in users && users[c].registered <==> exists i :: 0 <= i < |r| && r[i].chatId == c {
      if c in ids {
        var i :| 0 <= i < |ids| && ids[i] == c;
        assert r[i].chatId == c;
      }
    }
    forall i, j | 0 <= i < j < |r| ensures r[i].chatId != r[j].chatId && r[i].totalPoints >= r[j].totalPoints {
      assert Outranks(users, ids[i], ids[j]);
    }
  }

  /** `get_leaderboard(limit)`: a truthy limit appends `LIMIT limit`, which
    * SQLite reads as "no limit" when it is negative; `None` and 0 are falsy
    * and give the whole board. */
  function Leaderboard(users: map<int, User>, limit: Option<int>): (r: seq<LeaderRow>)
    ensures var all := Standings(users);
            && |r| == (if limit.Some? && 0 < limit.value < |all| then limit.value else |all|)
            && r == all[..|r|]
  {
    var all := Standings(users);
    if limit.Some? && 0 < limit.value < |all| then all[..limit.value]
    else all
  }

  /** The registered users with strictly more points than `p`. */
  function Above(users: map<int, User>, p: int): (r: set<int>)
    ensures r <= RegisteredIds(users)
  {
    set c | c in users && users[c].registered && users[c].totalPoints > p
  }

  datatype Standing = Standing(totalPoints: int, rank: int)

  /** `get_user_rank_and_points`: nothing for a missing or unregistered user,
    * otherwise the user's points and one plus the number of registered users
    * with strictly more. */
  function RankAndPoints(users: map<int, User>, c: int): (r: Option<Standing>)
    ensures r.Some? <==> c in users && users[c].registered
    ensures r.Some? ==> r.value.totalPoints == users[c].totalPoints && r.value.rank >= 1
  {
    if c in users && users[c].registered then
      Some(Standing(users[c].totalPoints, 1 + |Above(users, users[c].totalPoints)|))
    else None
  }

  /** Users with the same points share a rank. */
  lemma SameTotalSameRank(users: map<int, User>, a: int, b: int)
    requires RankAndPoints(users, a).Some? && RankAndPoints(users, b).Some?
    requires users[a].totalPoints == users[b].totalPoints
    ensures RankAndPoints(users, a) == RankAndPoints(users, b)
  {
  }

  /** More points means a strictly better (smaller) rank. */
  lemma MorePointsBetterRank(users: map<int, User>, a: int, b: int)
    requires RankAndPoints(users, a).Some? && RankAndPoints(users, b).Some?
    requires users[a].totalPoints > users[b].totalPoints
    ensures RankAndPoints(users, a).value.rank < RankAndPoints(users, b).value.rank
  {
    var aboveA, aboveB := Above(users, users[a].totalPoints), Above(users, users[b].totalPoints);
    assert a in aboveB && a !in aboveA;
    SubsetCard(aboveA + {a}, aboveB);
  }

  /** A rank never exceeds the number of registered users. */
  lemma RankAtMostRegistered(users: map<int, User>, c: int)
    requires RankAndPoints(users, c).Some?
    ensures RankAndPoints(users, c).value.rank <= |RegisteredIds(users)|
  {
    var above := Above(users, users[c].totalPoints);
    assert c !in above;
    SubsetCard(above + {c}, RegisteredIds(users));
  }

  /** Ranks are competition ranks, not dense ones: with totals 50, 50 and
    * 30 the two leaders share rank 1 and the third is ranked 3, not 2. */
  lemma TieSkipsNextRank(a: User, b: User, c: User)
    requires a.registered && b.registered && c.registered
    requires a.totalPoints == 50 && b.totalPoints == 50 && c.totalPoints == 30
    ensures var users := map[1 := a, 2 := b, 3 := c];
            && RankAndPoints(users, 1) == Some(Standing(50, 1))
            && RankAndPoints(users, 2) == Some(Standing(50, 1))
            && RankAndPoints(users, 3) == Some(Standing(30, 3))
  {
    var users := map[1 := a, 2 := b, 3 := c];
    assert Above(users, 50) == {};
    assert Above(users, 30) == {1, 2};
  }

  // ---------------------------------------------------------------------------
  // Catalog listing

  datatype MattoRow = MattoRow(id: int, name: string, points: int)

  /** Points descending, then name, then id. */
  predicate ListedBefore(matti: map<int, Matto>, a: int, b: int) {
    a in matti && b in matti
    && (matti[a].points > matti[b].points
        || (matti[a].points == matti[b].points && StrLess(matti[a].name, matti[b].name))
        || (matti[a].points == matti[b].points && matti[a].name == matti[b].name && a < b))
  }

  lemma ListedBeforeTotal(matti: map<int, Matto>)
    ensures StrictTotalOn(matti.Keys, (a: int, b: int) => ListedBefore(matti, a, b))
  {
    StrLessIsStrictTotalOrder();
  }

  /** The catalog ids in listing order. */
  function ListingOrder(matti: map<int, Matto>): (ids: seq<int>)
    ensures forall id :: id in ids <==> id in matti
    ensures forall i, j :: 0 <= i < j < |ids| ==> ListedBefore(matti, ids[i], ids[j])
  {
    ListedBeforeTotal(matti);
    SortedKeys(matti.Keys, (a: int, b: int) => ListedBefore(matti, a, b))
  }

  function MattoRowOf(matti: map<int, Matto>, id: int): MattoRow
    requires id in matti
  {
    MattoRow(id, matti[id].name, matti[id].points)
  }

  /** `list_matti`: the catalog's rows in listing order. */
  function CatalogListing(matti: map<int, Matto>): (r: seq<MattoRow>)
    ensures |r| == |ListingOrder(matti)|
    ensures forall i :: 0 <= i < |r| ==> ListingOrder(matti)[i] in matti && r[i] == MattoRowOf(matti, ListingOrder(matti)[i])
  {
    var ids := ListingOrder(matti);
    seq(|ids|, i requires 0 <= i < |ids| => MattoRowOf(matti, ids[i]))
  }

  /** The listing holds every catalog entry, with its own name and points,
    * and nothing else. */
  lemma CatalogListingMembers(matti: map<int, Matto>)
    ensures var r := CatalogListing(matti);
            && (forall id :: id in matti <==> exists i :: 0 <= i < |r| && r[i].id == id)
            && (forall i :: 0 <= i < |r| ==> r[i].id in matti && r[i].name == matti[r[i].id].name && r[i].points == matti[r[i].id].points)
  {
    var r, ids := CatalogListing(matti), ListingOrder(matti);
    forall id ensures id in matti <==> exists i :: 0 <= i < |r| && r[i].id == id {
      if id in ids {
        var i :| 0 <= i < |ids| && ids[i] == id;
        assert r[i].id == id;
      }
    }
  }

  /** No entry is listed twice; most points first, and by name among equal
    * points. */
  lemma CatalogListingSorted(matti: map<int, Matto>)
    ensures var r := CatalogListing(matti);
            forall i, j :: 0 <= i < j < |r| ==>
              r[i].id != r[j].id
              && (r[i].points > r[j].points
                  || (r[i].points == r[j].points && (StrLess(r[i].name, r[j].name) || r[i].name == r[j].name)))
  {
    var r, ids := CatalogListing(matti), ListingOrder(matti);
    forall i, j | 0 <= i < j < |r|
      ensures r[i].id != r[j].id
      ensures r[i].points > r[j].points
              || (r[i].points == r[j].points && (StrLess(r[i].name, r[j].name) || r[i].name == r[j].name))
    {
      assert ListedBefore(matti, ids[i], ids[j]);
      StrLessIrreflexive(matti[ids[i]].name);
    }
  }

  // ---------------------------------------------------------------------------
  // Galleries

  datatype Shot = Shot(sightingId: int, fileId: string, stamp: int, username: string, firstName: string)

  /** `get_matto_gallery`: the sightings of one target joined with their
    * owners, newest first. A sighting whose owner has no row is dropped by
    * the JOIN. */
  function MattoGallery(users: map<int, User>, ss: seq<Sighting>, mattoId: int): (r: seq<Shot>)
    ensures |r| <= |ss|
  {
    if ss == [] then []
    else
      var s := ss[|ss| - 1];
      (if s.matto == mattoId && s.user in users
       then [Shot(s.id, s.fileId, s.stamp, users[s.user].username, users[s.user].firstName)]
       else [])
      + MattoGallery(users, ss[..|ss| - 1], mattoId)
  }

  /** The rows `get_user_gallery` groups: the sightings of one user joined
    * with the catalog, newest first. A sighting whose target is no longer in
    * the catalog is dropped by the JOIN. */
  function GalleryRows(matti: map<int, Matto>, ss: seq<Sighting>, c: int): (r: seq<Gallery.Row>)
    ensures |r| <= |ss|
  {
    if ss == [] then []
    else
      var s := ss[|ss| - 1];
      (if s.user == c && s.matto in matti
       then [Gallery.Row(s.id, matti[s.matto].name, s.points, s.fileId, s.stamp)]
       else [])
      + GalleryRows(matti, ss[..|ss| - 1], c)
  }

  /** `row` is the gallery row of sighting `s` of user `c`. */
  predicate RowFrom(matti: map<int, Matto>, c: int, s: Sighting, row: Gallery.Row) {
    s.user == c && s.matto in matti
    && row == Gallery.Row(s.id, matti[s.matto].name, s.points, s.fileId, s.stamp)
  }

  /** Each of `rows` is the row of one of the sightings in `ss`. */
  predicate RowsSound(matti: map<int, Matto>, c: int, ss: seq<Sighting>, rows: seq<Gallery.Row>) {
    forall k :: 0 <= k < |rows| ==> exists m :: 0 <= m < |ss| && RowFrom(matti, c, ss[m], rows[k])
  }

  /** Each sighting of `c` in `ss` whose target is in the catalog has its row
    * among `rows`. */
  predicate RowsComplete(matti: map<int, Matto>, c: int, ss: seq<Sighting>, rows: seq<Gallery.Row>) {
    forall m :: 0 <= m < |ss| && ss[m].user == c && ss[m].matto in matti ==>
      exists k :: 0 <= k < |rows| && RowFrom(matti, c, ss[m], rows[k])
  }

  predicate RowsNewestFirst(rows: seq<Gallery.Row>) {
    forall i, j :: 0 <= i < j < |rows| ==> rows[i].stamp > rows[j].stamp
  }

  /** Sightings are appended as they are made, so their stamps increase. */
  predicate StampsIncrease(ss: seq<Sighting>) {
    forall i, j :: 0 <= i < j < |ss| ==> ss[i].stamp < ss[j].stamp
  }

  /** Every gallery row is the row of one of the user's sightings whose target
    * is in the catalog. */
  lemma {:induction false} GalleryRowsSound(matti: map<int, Matto>, ss: seq<Sighting>, c: int)
    ensures RowsSound(matti, c, ss, GalleryRows(matti, ss, c))
  {
    if ss != [] {
      var init := ss[..|ss| - 1];
      GalleryRowsSound(matti, init, c);
      var rest := GalleryRows(matti, init, c);
      var r := GalleryRows(matti, ss, c);
      var d := |r| - |rest|;
      forall k | 0 <= k < |r| ensures exists m :: 0 <= m < |ss| && RowFrom(matti, c, ss[m], r[k]) {
        if k < d {
          assert RowFrom(matti, c, ss[|ss| - 1], r[k]);
        } else {
          assert r[k] == rest[k - d];
          var m :| 0 <= m < |init| && RowFrom(matti, c, init[m], rest[k - d]);
          assert ss[m] == init[m];
        }
      }
    }
  }

  /** Every sighting of the user whose target is in the catalog has its row. */
  lemma {:induction false} GalleryRowsComplete(matti: map<int, Matto>, ss: seq<Sighting>, c: int)
    ensures RowsComplete(matti, c, ss, GalleryRows(matti, ss, c))
  {
    if ss != [] {
      var init := ss[..|ss| - 1];
      GalleryRowsComplete(matti, init, c);
      var rest := GalleryRows(matti, init, c);
      var r := GalleryRows(matti, ss, c);
      var d := |r| - |rest|;
      forall m | 0 <= m < |ss| && ss[m].user == c && ss[m].matto in matti
        ensures exists k :: 0 <= k < |r| && RowFrom(matti, c, ss[m], r[k])
      {
        if m == |ss| - 1 {
          assert RowFrom(matti, c, ss[m], r[0]);
        } else {
          assert ss[m] == init[m];
          var k :| 0 <= k < |rest| && RowFrom(matti, c, init[m], rest[k]);
          assert r[k + d] == rest[k];
        }
      }
    }
  }

  /** The gallery lists the user's sightings newest first. */
  lemma {:induction false} GalleryRowsNewestFirst(matti: map<int, Matto>, ss: seq<Sighting>, c: int)
    requires StampsIncrease(ss)
    ensures RowsNewestFirst(GalleryRows(matti, ss, c))
  {
    if ss != [] {
      var init := ss[..|ss| - 1];
      GalleryRowsNewestFirst(matti, init, c);
      GalleryRowsSound(matti, init, c);
      var rest := GalleryRows(matti, init, c);
      var r := GalleryRows(matti, ss, c);
      var d := |r| - |rest|;
      forall i, j | 0 <= i < j < |r| ensures r[i].stamp > r[j].stamp {
        assert r[j] == rest[j - d];
        var m :| 0 <= m < |init| && RowFrom(matti, c, init[m], rest[j - d]);
        assert ss[m] == init[m];
        if i >= d {
          assert r[i] == rest[i - d];
        }
      }
    }
  }

  /** When no sighting of the user points at a target missing from the
    * catalog, the gallery's points add up to the user's points from
    * sightings. */
  lemma {:induction false} GalleryRowsPoints(matti: map<int, Matto>, ss: seq<Sighting>, c: int)
    requires forall k :: 0 <= k < |ss| && ss[k].user == c ==> ss[k].matto in matti
    ensures Gallery.SumPoints(GalleryRows(matti, ss, c)) == PointsOf(ss, c)
  {
    if ss != [] {
      var init, s := ss[..|ss| - 1], ss[|ss| - 1];
      GalleryRowsPoints(matti, init, c);
      var rest := GalleryRows(matti, init, c);
      if s.user == c {
        Gallery.SumPointsCons(Gallery.Row(s.id, matti[s.matto].name, s.points, s.fileId, s.stamp), rest);
      } else {
        assert GalleryRows(matti, ss, c) == rest;
      }
    }
  }

  /** `shot` is the gallery entry of sighting `s` of target `mattoId`. */
  predicate ShotFrom(users: map<int, User>, mattoId: int, s: Sighting, shot: Shot) {
    s.matto == mattoId && s.user in users
    && shot == Shot(s.id, s.fileId, s.stamp, users[s.user].username, users[s.user].firstName)
  }

  predicate ShotsSound(users: map<int, User>, mattoId: int, ss: seq<Sighting>, shots: seq<Shot>) {
    forall k :: 0 <= k < |shots| ==> exists m :: 0 <= m < |ss| && ShotFrom(users, mattoId, ss[m], shots[k])
  }

  predicate ShotsComplete(users: map<int, User>, mattoId: int, ss: seq<Sighting>, shots: seq<Shot>) {
    forall m :: 0 <= m < |ss| && ss[m].matto == mattoId && ss[m].user in users ==>
      exists k :: 0 <= k < |shots| && ShotFrom(users, mattoId, ss[m], shots[k])
  }

  predicate ShotsNewestFirst(shots: seq<Shot>) {
    forall i, j :: 0 <= i < j < |shots| ==> shots[i].stamp > shots[j].stamp
  }

  /** Every entry of a target's gallery comes from a sighting of that target
    * by a known user. */
  lemma {:induction false} MattoGallerySound(users: map<int, User>, ss: seq<Sighting>, mattoId: int)
    ensures ShotsSound(users, mattoId, ss, MattoGallery(users, ss, mattoId))
  {
    if ss != [] {
      var init := ss[..|ss| - 1];
      MattoGallerySound(users, init, mattoId);
      var rest := MattoGallery(users, init, mattoId);
      var r := MattoGallery(users, ss, mattoId);
      var d := |r| - |rest|;
      forall k | 0 <= k < |r| ensures exists m :: 0 <= m < |ss| && ShotFrom(users, mattoId, ss[m], r[k]) {
        if k < d {
          assert ShotFrom(users, mattoId, ss[|ss| - 1], r[k]);
        } else {
          assert r[k] == rest[k - d];
          var m :| 0 <= m < |init| && ShotFrom(users, mattoId, init[m], rest[k - d]);
          assert ss[m] == init[m];
        }
      }
    }
  }

  /** Every sighting of the target by a known user is in its gallery. */
  lemma {:induction false} MattoGalleryComplete(users: map<int, User>, ss: seq<Sighting>, mattoId: int)
    ensures ShotsComplete(users, mattoId, ss, MattoGallery(users, ss, mattoId))
  {
    if ss != [] {
      var init := ss[..|ss| - 1];
      MattoGalleryComplete(users, init, mattoId);
      var rest := MattoGallery(users, init, mattoId);
      var r := MattoGallery(users, ss, mattoId);
      var d := |r| - |rest|;
      forall m | 0 <= m < |ss| && ss[m].matto == mattoId && ss[m].user in users
        ensures exists k :: 0 <= k < |r| && ShotFrom(users, mattoId, ss[m], r[k])
      {
        if m == |ss| - 1 {
          assert ShotFrom(users, mattoId, ss[m], r[0]);
        } else {
          assert ss[m] == init[m];
          var k :| 0 <= k < |rest| && ShotFrom(users, mattoId, init[m], rest[k]);
          assert r[k + d] == rest[k];
        }
      }
    }
  }

  /** A target's gallery lists its sightings newest first. */
  lemma {:induction false} MattoGalleryNewestFirst(users: map<int, User>, ss: seq<Sighting>, mattoId: int)
    requires StampsIncrease(ss)
    ensures ShotsNewestFirst(MattoGallery(users, ss, mattoId))
  {
    if ss != [] {
      var init := ss[..|ss| - 1];
      MattoGalleryNewestFirst(users, init, mattoId);
      MattoGallerySound(users, init, mattoId);
      var rest := MattoGallery(users, init, mattoId);
      var r := MattoGallery(users, ss, mattoId);
      var d := |r| - |rest|;
      forall i, j | 0 <= i < j < |r| ensures r[i].stamp > r[j].stamp {
        assert r[j] == rest[j - d];
        var m :| 0 <= m < |init| && ShotFrom(users, mattoId, init[m], rest[j - d]);
        assert ss[m] == init[m];
        if i >= d {
          assert r[i] == rest[i - d];
        }
      }
    }
  }

  // ---------------------------------------------------------------------------
  // get_user_gallery

  /** `get_user_gallery`: the user's gallery rows grouped by target name,
    * names in order of their newest sighting. */
  method UserGallery(matti: map<int, Matto>, ss: seq<Sighting>, c: int) returns (order: seq<string>, stats: map<string, Gallery.Stats>)
    ensures order == Gallery.NamesInOrder(GalleryRows(matti, ss, c))
    ensures stats == Gallery.StatsByName(GalleryRows(matti, ss, c))
    ensures order == [] <==> GalleryRows(matti, ss, c) == []
  {
    var rows := GalleryRows(matti, ss, c);
    order, stats := Gallery.GroupByName(rows);
    Gallery.NamesInOrderEmpty(rows);
    assert stats == Gallery.StatsByName(rows);
  }

  /** With consistent tables and none of the user's sightings orphaned by a
    * reload, the points of the user's gallery groups add up to the user's
    * total. */
  lemma UserGalleryTotal(users: map<int, User>, matti: map<int, Matto>, ss: seq<Sighting>,
                         nextMattoId: int, nextSightingId: int, clock: int, c: int)
    requires Consistent(users, matti, ss, nextMattoId, nextSightingId, clock)
    requires c in users
    requires forall k :: 0 <= k < |ss| && ss[k].user == c ==> ss[k].matto in matti
    ensures var rows := GalleryRows(matti, ss, c);
            Gallery.GroupPoints(rows, Gallery.NamesInOrder(rows)) == users[c].totalPoints
  {
    var rows := GalleryRows(matti, ss, c);
    Gallery.GroupPointsTotal(rows);
    GalleryRowsPoints(matti, ss, c);
  }
}
