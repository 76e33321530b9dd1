/**
 * The bot's three tables and the helpers that change them.
 *
 * `users` is keyed by chat id, `matti` (the catalog of targets) by an
 * AUTOINCREMENT id, and `sightings` is kept in insertion order. Ids handed
 * out by AUTOINCREMENT are never reused, which the model captures with a
 * counter per table; the `timestamp` column is an abstract clock that moves
 * forward with every sighting, so "newest first" is "latest inserted first".
 *
 * The invariant the helpers keep together: every user's `total_points` is
 * the sum of the points awarded by that user's sightings.
 */
module Store {
  import opened Wrappers
  import opened Seqs
  import Catalog

  datatype User = User(username: string, firstName: string, registered: bool, totalPoints: int)

  datatype Matto = Matto(name: string, points: int)

  datatype Sighting = Sighting(id: int, user: int, matto: int, points: int, fileId: string, stamp: int)

  // ---------------------------------------------------------------------------
  // Points of one user

  /** The sum of `points_awarded` over the sightings of user `c`. */
  function PointsOf(ss: seq<Sighting>, c: int): int {
    if ss == [] then 0
    else PointsOf(ss[..|ss| - 1], c) + if ss[|ss| - 1].user == c then ss[|ss| - 1].points else 0
  }

  lemma PointsOfSnoc(ss: seq<Sighting>, s: Sighting, c: int)
    ensures PointsOf(ss + [s], c) == PointsOf(ss, c) + if s.user == c then s.points else 0
  {
    InitOfSnoc(ss, s);
  }

  lemma {:induction false} PointsOfConcat(a: seq<Sighting>, b: seq<Sighting>, c: int)
    ensures PointsOf(a + b, c) == PointsOf(a, c) + PointsOf(b, c)
    decreases |b|
  {
    if b != [] {
      var init := b[..|b| - 1];
      var s := b[|b| - 1];
      SplitLast(b);
      assert a + b == (a + init) + [s];
      PointsOfConcat(a, init, c);
      PointsOfSnoc(a + init, s, c);
      PointsOfSnoc(init, s, c);
    } else {
      assert a + b == a;
    }
  }

  /** A user without sightings has no points from them. */
  lemma {:induction false} PointsOfNone(ss: seq<Sighting>, c: int)
    requires forall k :: 0 <= k < |ss| ==> ss[k].user != c
    ensures PointsOf(ss, c) == 0
  {
    if ss != [] {
      PointsOfNone(ss[..|ss| - 1], c);
    }
  }

  /** `ss` without its element at `k`. */
  function RemoveAt(ss: seq<Sighting>, k: int): (r: seq<Sighting>)
    requires 0 <= k < |ss|
    ensures |r| == |ss| - 1
    ensures forall j :: 0 <= j < |r| ==> r[j] == if j < k then ss[j] else ss[j + 1]
  {
    ss[..k] + ss[k + 1..]
  }

  /** Removing a sighting takes its points off its owner and off nobody else. */
  lemma PointsOfRemoveAt(ss: seq<Sighting>, k: int, c: int)
    requires 0 <= k < |ss|
    ensures PointsOf(RemoveAt(ss, k), c) == PointsOf(ss, c) - if ss[k].user == c then ss[k].points else 0
  {
    assert ss == ss[..k] + [ss[k]] + ss[k + 1..];
    PointsOfConcat(ss[..k] + [ss[k]], ss[k + 1..], c);
    PointsOfConcat(ss[..k], ss[k + 1..], c);
    PointsOfSnoc(ss[..k], ss[k], c);
  }

  // ---------------------------------------------------------------------------
  // Table invariants

  /** Every user's total is the sum of the points of that user's sightings. */
  ghost predicate TotalsMatch(users: map<int, User>, ss: seq<Sighting>) {
    forall c | c in users :: users[c].totalPoints == PointsOf(ss, c)
  }

  /** Every sighting belongs to a user with a row. */
  ghost predicate OwnersKnown(users: map<int, User>, ss: seq<Sighting>) {
    forall k :: 0 <= k < |ss| ==> ss[k].user in users
  }

  /** Ids and timestamps grow with insertion and stay below the next ones to
    * be handed out. */
  ghost predicate Chronological(ss: seq<Sighting>, nextId: int, clock: int) {
    && (forall i, j :: 0 <= i < j < |ss| ==> ss[i].id < ss[j].id && ss[i].stamp < ss[j].stamp)
    && (forall k :: 0 <= k < |ss| ==> 1 <= ss[k].id < nextId && ss[k].stamp < clock)
  }

  /** The catalog's UNIQUE constraint on names. */
  ghost predicate NamesUnique(matti: map<int, Matto>) {
    forall a, b | a in matti && b in matti && a != b :: matti[a].name != matti[b].name
  }

  /** The position of the sighting with id `id`, if there is one. */
  function Find(ss: seq<Sighting>, id: int): (r: Option<nat>)
    ensures r.None? <==> forall k :: 0 <= k < |ss| ==> ss[k].id != id
    ensures r.Some? ==> r.value < |ss| && ss[r.value].id == id
  {
    if ss == [] then None
    else if ss[|ss| - 1].id == id then Some(|ss| - 1)
    else
      var r := Find(ss[..|ss| - 1], id);
      assert forall k :: 0 <= k < |ss| - 1 ==> ss[..|ss| - 1][k] == ss[k];
      r
  }

  /** The catalog as the reload numbers it: the `k`-th parsed entry gets id
    * `base + k`. */
  function Numbered(es: seq<Catalog.Entry>, base: int): (r: map<int, Matto>)
    ensures forall id :: id in r <==> base <= id < base + |es|
    ensures forall k :: 0 <= k < |es| ==> r[base + k] == Matto(es[k].name, es[k].points)
  {
    if es == [] then map[]
    else
      var init := es[..|es| - 1];
      var m := Numbered(init, base);
      assert forall k :: 0 <= k < |init| ==> init[k] == es[k];
      m[base + |init| := Matto(es[|es| - 1].name, es[|es| - 1].points)]
  }

  /** Entries with pairwise distinct names give a catalog with unique names. */
  lemma NumberedNamesUnique(es: seq<Catalog.Entry>, base: int)
    requires forall k, l :: 0 <= k < l < |es| ==> es[k].name != es[l].name
    ensures NamesUnique(Numbered(es, base))
  {
    var m := Numbered(es, base);
    forall a, b | a in m && b in m && a != b ensures m[a].name != m[b].name {
      assert m[a] == Matto(es[a - base].name, es[a - base].points);
      assert m[b] == Matto(es[b - base].name, es[b - base].points);
    }
  }

  lemma NumberedSnoc(es: seq<Catalog.Entry>, e: Catalog.Entry, base: int)
    ensures Numbered(es + [e], base) == Numbered(es, base)[base + |es| := Matto(e.name, e.points)]
  {
    InitOfSnoc(es, e);
  }

  /** All the table invariants at once. */
  ghost predicate Consistent(users: map<int, User>, matti: map<int, Matto>, ss: seq<Sighting>,
                             nextMattoId: int, nextSightingId: int, clock: int) {
    && TotalsMatch(users, ss)
    && OwnersKnown(users, ss)
    && 1 <= nextSightingId
    && Chronological(ss, nextSightingId, clock)
    && 1 <= nextMattoId
    && (forall id | id in matti :: 1 <= id < nextMattoId)
    && NamesUnique(matti)
  }

  /** `users` with `delta` added to the total of user `c`: the same rows,
    * and user `c`'s total moved by exactly `delta`. */
  function Credit(users: map<int, User>, c: int, delta: int): (r: map<int, User>)
    requires c in users
    ensures r.Keys == users.Keys
    ensures r[c].totalPoints - users[c].totalPoints == delta
    ensures r[c] == users[c].(totalPoints := users[c].totalPoints + delta)
    ensures forall d | d in users && d != c :: r[d] == users[d]
  {
    users[c := users[c].(totalPoints := users[c].totalPoints + delta)]
  }

  lemma TotalsAfterAdd(users: map<int, User>, ss: seq<Sighting>, s: Sighting)
    requires TotalsMatch(users, ss) && s.user in users
    ensures TotalsMatch(Credit(users, s.user, s.points), ss + [s])
  {
    forall c | c in users ensures PointsOf(ss + [s], c) == PointsOf(ss, c) + if c == s.user then s.points else 0 {
      PointsOfSnoc(ss, s, c);
    }
  }

  /** Adding a sighting with the next id and the current time, and crediting
    * its owner, keeps the tables consistent. */
  lemma AddKeepsConsistent(users: map<int, User>, matti: map<int, Matto>, ss: seq<Sighting>,
                           nextMattoId: int, nextSightingId: int, clock: int, s: Sighting)
    requires Consistent(users, matti, ss, nextMattoId, nextSightingId, clock)
    requires s.user in users && s.id == nextSightingId && s.stamp == clock
    ensures Consistent(Credit(users, s.user, s.points), matti, ss + [s], nextMattoId, nextSightingId + 1, clock + 1)
  {
    TotalsAfterAdd(users, ss, s);
    var ss' := ss + [s];
    assert forall k :: 0 <= k < |ss| ==> ss'[k] == ss[k];
  }

  lemma TotalsAfterRemove(users: map<int, User>, ss: seq<Sighting>, k: int)
    requires TotalsMatch(users, ss) && 0 <= k < |ss| && ss[k].user in users
    ensures TotalsMatch(Credit(users, ss[k].user, -ss[k].points), RemoveAt(ss, k))
  {
    forall c | c in users ensures PointsOf(RemoveAt(ss, k), c) == PointsOf(ss, c) - if c == ss[k].user then ss[k].points else 0 {
      PointsOfRemoveAt(ss, k, c);
    }
  }

  /** Removing a sighting and debiting its owner keeps the tables consistent. */
  lemma RemoveKeepsConsistent(users: map<int, User>, matti: map<int, Matto>, ss: seq<Sighting>,
                              nextMattoId: int, nextSightingId: int, clock: int, k: int)
    requires Consistent(users, matti, ss, nextMattoId, nextSightingId, clock)
    requires 0 <= k < |ss|
    ensures Consistent(Credit(users, ss[k].user, -ss[k].points), matti, RemoveAt(ss, k), nextMattoId, nextSightingId, clock)
  {
    TotalsAfterRemove(users, ss, k);
    var r := RemoveAt(ss, k);
    forall i, j | 0 <= i < j < |r| ensures r[i].id < r[j].id && r[i].stamp < r[j].stamp {
      var i' := if i < k then i else i + 1;
      var j' := if j < k then j else j + 1;
      assert r[i] == ss[i'] && r[j] == ss[j'];
    }
  }

  /** A sighting added with the next id is found at the end, and deleting it
    * again gives back the table and the totals from before the add. */
  lemma AddThenDeleteRestores(users: map<int, User>, ss: seq<Sighting>, s: Sighting)
    requires s.user in users
    ensures Find(ss + [s], s.id) == Some(|ss|)
    ensures RemoveAt(ss + [s], |ss|) == ss
    ensures Credit(Credit(users, s.user, s.points), s.user, -s.points) == users
  {
    InitOfSnoc(ss, s);
    var back := Credit(Credit(users, s.user, s.points), s.user, -s.points);
    assert back[s.user] == users[s.user];
  }

  /** `UPDATE users SET total_points = 0`: every row kept, every total zero. */
  function ZeroTotals(users: map<int, User>): (r: map<int, User>)
    ensures r.Keys == users.Keys
    ensures forall c | c in r :: r[c] == users[c].(totalPoints := 0)
  {
    map c | c in users :: users[c].(totalPoints := 0)
  }

  /** After the reload the tables are consistent again: no sightings, no
    * points, and a catalog with unique names under ids never used before. */
  lemma ReloadConsistent(users: map<int, User>, es: seq<Catalog.Entry>, base: int, nextSightingId: int, clock: int)
    requires 1 <= base && 1 <= nextSightingId
    requires forall k, l :: 0 <= k < l < |es| ==> es[k].name != es[l].name
    ensures Consistent(ZeroTotals(users), Numbered(es, base), [], base + |es|, nextSightingId, clock)
  {
    NumberedNamesUnique(es, base);
  }

  lemma NumberedStep(es: seq<Catalog.Entry>, i: int, base: int)
    requires 0 <= i < |es|
    ensures Numbered(es[..i + 1], base) == Numbered(es[..i], base)[base + i := Matto(es[i].name, es[i].points)]
  {
    PrefixSnoc(es, i);
    NumberedSnoc(es[..i], es[i], base);
  }

  // ---------------------------------------------------------------------------
  // SQLite's INTEGER range

  /** SQLite stores an INTEGER in at most 64 bits: a Python `int` outside
    * this range cannot be bound as a parameter, and `sqlite3` raises
    * `OverflowError` instead of inserting the row. */
  const MinInteger: int := -0x8000_0000_0000_0000
  const MaxInteger: int := 0x7FFF_FFFF_FFFF_FFFF

  predicate Fits(x: int) {
    MinInteger <= x <= MaxInteger
  }

  /** The entries `executemany` gets through: all of them up to the first
    * one whose points do not fit, where it raises. */
  function InsertedPrefix(es: seq<Catalog.Entry>): (r: seq<Catalog.Entry>)
    ensures |r| <= |es| && r == es[..|r|]
    ensures forall k :: 0 <= k < |r| ==> Fits(r[k].points)
    ensures |r| < |es| ==> !Fits(es[|r|].points)
  {
    if es == [] || !Fits(es[0].points) then []
    else
      var rest := InsertedPrefix(es[1..]);
      assert es[..1 + |rest|] == [es[0]] + es[1..][..|rest|];
      [es[0]] + rest
  }

  /** Every entry is inserted exactly when every entry's points fit. */
  lemma InsertedAllIff(es: seq<Catalog.Entry>)
    ensures InsertedPrefix(es) == es <==> forall k :: 0 <= k < |es| ==> Fits(es[k].points)
  {
  }

  /** The catalog a reload from `lines` leaves behind. */
  function Reloaded(lines: seq<string>): seq<Catalog.Entry> {
    InsertedPrefix(Catalog.Parsed(lines))
  }

  /** The reloaded entries keep the parser's distinct names. */
  lemma ReloadedNamesDistinct(lines: seq<string>)
    ensures var es := Reloaded(lines);
            forall k, l :: 0 <= k < l < |es| ==> es[k].name != es[l].name
  {
    var ps := Catalog.Parsed(lines);
    Catalog.ParsedNamesDistinct(lines);
    assert Reloaded(lines) == ps[..|Reloaded(lines)|];
  }

  /** The `executemany` of the reload: inserts the entries one by one, each
    * under the next AUTOINCREMENT id, and stops at the first entry whose
    * points do not fit, which raises. */
  method InsertCatalog(es: seq<Catalog.Entry>, base: int) returns (loaded: map<int, Matto>, next: int, complete: bool)
    ensures complete <==> InsertedPrefix(es) == es
    ensures loaded == Numbered(InsertedPrefix(es), base)
    ensures next == base + |InsertedPrefix(es)|
  {
    loaded, next := map[], base;
    var i := 0;
    while i < |es| && Fits(es[i].points)
      invariant i <= |InsertedPrefix(es)|
      invariant loaded == Numbered(es[..i], base)
      invariant next == base + i
    {
      NumberedStep(es, i, base);
      loaded := loaded[next := Matto(es[i].name, es[i].points)];
      next := next + 1;
      i := i + 1;
    }
    complete := i == |es|;
    assert es[..i] == InsertedPrefix(es);
  }

  // ---------------------------------------------------------------------------
  // The store

  class Db {
    var users: map<int, User>
    var matti: map<int, Matto>
    var sightings: seq<Sighting>
    /** The next id AUTOINCREMENT hands out in `matti`. */
    var nextMattoId: int
    /** The next id AUTOINCREMENT hands out in `sightings`. */
    var nextSightingId: int
    /** The abstract clock behind the `timestamp` column. */
    var clock: int

    ghost predicate Valid()
      reads this
    {
      Consistent(users, matti, sightings, nextMattoId, nextSightingId, clock)
    }

    /** `init_db` on a fresh database: three empty tables. */
    constructor ()
      ensures Valid()
      ensures users == map[] && matti == map[] && sightings == []
    {
      users, matti, sightings := map[], map[], [];
      nextMattoId, nextSightingId, clock := 1, 1, 0;
    }

    /** `register_user`: INSERT OR IGNORE, so an existing row is left exactly
      * as it is; a new row starts unregistered with no points. */
    method RegisterUser(chatId: int, username: string, firstName: string)
      requires Valid()
      modifies this
      ensures Valid()
      ensures chatId in old(users) ==> users == old(users)
      ensures chatId !in old(users) ==> users == old(users)[chatId := User(username, firstName, false, 0)]
      ensures matti == old(matti) && sightings == old(sightings)
      ensures nextMattoId == old(nextMattoId) && nextSightingId == old(nextSightingId) && clock == old(clock)
    {
      if chatId !in users {
        PointsOfNone(sightings, chatId);
        users := users[chatId := User(username, firstName, false, 0)];
      }
    }

    /** `set_registered`: sets one user's flag; a missing user is a no-op. */
    method SetRegistered(chatId: int, isReg: bool)
      requires Valid()
      modifies this
      ensures Valid()
      ensures users.Keys == old(users).Keys
      ensures chatId in old(users) ==> users == old(users)[chatId := old(users)[chatId].(registered := isReg)]
      ensures chatId !in old(users) ==> users == old(users)
      ensures matti == old(matti) && sightings == old(sightings)
      ensures nextMattoId == old(nextMattoId) && nextSightingId == old(nextSightingId) && clock == old(clock)
    {
      if chatId in users {
        users := users[chatId := users[chatId].(registered := isReg)];
      }
    }

    /** `unregister_user`: clears one user's flag. */
    method UnregisterUser(chatId: int)
      requires Valid()
      modifies this
      ensures Valid()
      ensures users.Keys == old(users).Keys
      ensures chatId in old(users) ==> users == old(users)[chatId := old(users)[chatId].(registered := false)]
      ensures chatId !in old(users) ==> users == old(users)
      ensures matti == old(matti) && sightings == old(sightings)
      ensures nextMattoId == old(nextMattoId) && nextSightingId == old(nextSightingId) && clock == old(clock)
    {
      SetRegistered(chatId, false);
    }

    /** `add_sighting`: one new sighting, newest of all, and its points added
      * to its owner's total and to nobody else's. */
    method AddSighting(chatId: int, mattoId: int, points: int, fileId: string) returns (id: int)
      requires Valid()
      requires chatId in users
      modifies this
      ensures Valid()
      ensures id == old(nextSightingId)
      ensures sightings == old(sightings) + [Sighting(id, chatId, mattoId, points, fileId, old(clock))]
      ensures users == Credit(old(users), chatId, points)
      ensures users.Keys == old(users).Keys
      ensures matti == old(matti) && nextMattoId == old(nextMattoId)
      ensures nextSightingId == old(nextSightingId) + 1 && clock == old(clock) + 1
    {
      id := nextSightingId;
      var s := Sighting(id, chatId, mattoId, points, fileId, clock);
      AddKeepsConsistent(users, matti, sightings, nextMattoId, nextSightingId, clock, s);
      sightings := sightings + [s];
      users := Credit(users, chatId, points);
      nextSightingId := nextSightingId + 1;
      clock := clock + 1;
    }

    /** `delete_sighting`: an unknown id changes nothing and reports false;
      * a known one removes exactly that sighting, takes its points off its
      * owner and reports true. */
    method DeleteSighting(id: int) returns (found: bool)
      requires Valid()
      modifies this
      ensures Valid()
      ensures found <==> old(Find(sightings, id)).Some?
      ensures users.Keys == old(users).Keys
      ensures !found ==> sightings == old(sightings) && users == old(users)
      ensures found ==>
                var k := old(Find(sightings, id)).value;
                var s := old(sightings)[k];
                && sightings == RemoveAt(old(sightings), k)
                && users == Credit(old(users), s.user, -s.points)
      ensures matti == old(matti)
      ensures nextMattoId == old(nextMattoId) && nextSightingId == old(nextSightingId) && clock == old(clock)
    {
      var where := Find(sightings, id);
      if where.None? {
        return false;
      }
      var k := where.value;
      var s := sightings[k];
      RemoveKeepsConsistent(users, matti, sightings, nextMattoId, nextSightingId, clock, k);
      sightings, users := RemoveAt(sightings, k), Credit(users, s.user, -s.points);
      found := true;
    }

    /** `load_matti_from_file`'s swap: every sighting goes, every total drops
      * to zero with the user rows otherwise untouched, and the catalog is
      * replaced by the parsed entries under fresh ids. Returns how many
      * entries were loaded. An entry whose points do not fit in 64 bits makes
      * `executemany` raise after the deletions and after the entries before
      * it: that half reload stays in the connection's open transaction, which
      * the next helper's commit makes durable, and the result is `None`. */
    method LoadMatti(lines: seq<string>) returns (count: Option<int>)
      requires Valid()
      modifies this
      ensures Valid()
      ensures count == if Reloaded(lines) == Catalog.Parsed(lines) then Some(|Catalog.Parsed(lines)|) else None
      ensures matti == Numbered(Reloaded(lines), old(nextMattoId))
      ensures nextMattoId == old(nextMattoId) + |Reloaded(lines)|
      ensures sightings == []
      ensures users == ZeroTotals(old(users))
      ensures nextSightingId == old(nextSightingId) && clock == old(clock)
    {
      var parsed := Catalog.ParseCatalog(lines);
      var loaded, next, complete := InsertCatalog(parsed, nextMattoId);
      ReloadedNamesDistinct(lines);
      ReloadConsistent(users, Reloaded(lines), nextMattoId, nextSightingId, clock);
      sightings, matti, users, nextMattoId := [], loaded, ZeroTotals(users), next;
      count := if complete then Some(|parsed|) else None;
    }
  }
}
