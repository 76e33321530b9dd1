/**
 * The bot's per-chat conversation state and the handlers that move it: the
 * password gate, the report flow (pick a target, then send its photo), the
 * two gallery sessions, the admin's deletion and catalog upload, and the
 * broadcast that follows every report.
 *
 * Telegram itself is not modelled: a handler receives the parts of the
 * update it looks at, and what a send returns is a parameter.
 */
module Handlers {
  import opened Wrappers
  import opened Seqs
  import opened Text
  import opened Store
  import opened Queries
  import Gallery

  // ---------------------------------------------------------------------------
  // Callback arguments

  /** The id carried by a button's callback data: `str.isdigit()` on the text
    * after the `|`, then `int()`. A digit string longer than `int()`
    * converts is refused as well (the source's `int()` raises there). */
  function ParseId(arg: string): (r: Option<nat>)
    ensures r.Some? <==> arg != [] && AllDigits(arg) && |arg| <= MaxStrDigits
    ensures r.Some? ==> ParseInt(arg) == Some(r.value)
  {
    if arg != [] && AllDigits(arg) && |arg| <= MaxStrDigits then
      assert IsDigit(arg[0]) && Unsigned(arg) == arg;
      Some(DigitsValue(arg))
    else None
  }

  /** The ids the bot writes into its buttons read back unchanged. */
  lemma ParseIdShowNat(n: nat)
    ensures ParseId(ShowNat(n)) == if |ShowNat(n)| <= MaxStrDigits then Some(n) else None
  {
    ShowNatValue(n);
  }

  /** `s.endswith(suffix)`. */
  predicate EndsWith(s: string, suffix: string) {
    |suffix| <= |s| && s[|s| - |suffix|..] == suffix
  }

  /** An upload's file name is accepted exactly when its last four characters
    * spell `.txt` in any mix of cases. */
  lemma TextFileName(name: string)
    ensures EndsWith(Lower(name), ".txt") <==> 4 <= |name| && Lower(name[|name| - 4..]) == ".txt"
  {
    if 4 <= |name| {
      var tail, lowered := Lower(name)[|name| - 4..], Lower(name[|name| - 4..]);
      forall i | 0 <= i < 4 ensures tail[i] == lowered[i] {
        assert name[|name| - 4..][i] == name[|name| - 4 + i];
      }
      assert tail == lowered;
    }
  }

  // ---------------------------------------------------------------------------
  // Unreachable recipients

  const UnreachableMarkers: seq<string> := ["blocked", "not found", "deactivated"]

  /** A Telegram API error whose lower-cased text mentions one of the markers
    * means the recipient can no longer be reached. */
  predicate IsUnreachable(text: string) {
    exists kw | kw in UnreachableMarkers :: Contains(Lower(text), kw)
  }

  /** An error counts as unreachable exactly when one of the markers occurs
    * somewhere in its lower-cased text. */
  lemma IsUnreachableIff(text: string)
    ensures IsUnreachable(text) <==> exists kw, i :: kw in UnreachableMarkers && OccursAt(Lower(text), kw, i)
  {
    var t := Lower(text);
    forall kw | kw in UnreachableMarkers
      ensures Contains(t, kw) <==> exists i :: OccursAt(t, kw, i)
    {
      ContainsIff(t, kw);
    }
  }

  lemma LowerIdempotent(s: string)
    ensures Lower(Lower(s)) == Lower(s)
  {
    assert forall i :: 0 <= i < |s| ==> LowerChar(LowerChar(s[i])) == LowerChar(s[i]);
  }

  /** The check ignores case: an error text and its lower-cased form agree. */
  lemma IsUnreachableIgnoresCase(text: string)
    ensures IsUnreachable(Lower(text)) == IsUnreachable(text)
  {
    LowerIdempotent(text);
  }

  // ---------------------------------------------------------------------------
  // The broadcast after a report

  /** What sending the report to one recipient gave. */
  datatype SendOutcome = Delivered | ApiError(text: string) | OtherError(text: string)

  predicate Unreachable(o: SendOutcome) {
    o.ApiError? && IsUnreachable(o.text)
  }

  /** The recipients the report reached, in sending order. */
  function DeliveredTo(ids: seq<int>, outcome: int -> SendOutcome): (r: seq<int>)
    ensures |r| <= |ids|
  {
    if ids == [] then []
    else DeliveredTo(ids[..|ids| - 1], outcome) + if outcome(ids[|ids| - 1]).Delivered? then [ids[|ids| - 1]] else []
  }

  /** The recipients found unreachable, in sending order. */
  function Removed(ids: seq<int>, outcome: int -> SendOutcome): (r: seq<int>)
    ensures |r| <= |ids|
  {
    if ids == [] then []
    else Removed(ids[..|ids| - 1], outcome) + if Unreachable(outcome(ids[|ids| - 1])) then [ids[|ids| - 1]] else []
  }

  /** A recipient is listed as reached exactly when its send succeeded, and as
    * removed exactly when its send failed with an unreachable error. */
  lemma {:induction false} BroadcastMembers(ids: seq<int>, outcome: int -> SendOutcome, c: int)
    ensures c in DeliveredTo(ids, outcome) <==> c in ids && outcome(c).Delivered?
    ensures c in Removed(ids, outcome) <==> c in ids && Unreachable(outcome(c))
  {
    if ids != [] {
      var init := ids[..|ids| - 1];
      BroadcastMembers(init, outcome, c);
      SplitLast(ids);
    }
  }

  /** No recipient is both reached and removed, so the two lists together are
    * no longer than the recipient list. */
  lemma {:induction false} BroadcastAccounting(ids: seq<int>, outcome: int -> SendOutcome)
    ensures |DeliveredTo(ids, outcome)| + |Removed(ids, outcome)| <= |ids|
  {
    if ids != [] {
      BroadcastAccounting(ids[..|ids| - 1], outcome);
    }
  }

  /** `users` with every listed user unregistered. */
  function Unregistered(users: map<int, User>, cs: seq<int>): (r: map<int, User>)
    ensures r.Keys == users.Keys
    ensures forall c | c in r :: r[c] == if c in cs then users[c].(registered := false) else users[c]
  {
    map c | c in users :: if c in cs then users[c].(registered := false) else users[c]
  }

  lemma UnregisteredSnoc(users: map<int, User>, cs: seq<int>, c: int)
    ensures c in users ==>
              Unregistered(users, cs + [c]) == Unregistered(users, cs)[c := Unregistered(users, cs)[c].(registered := false)]
    ensures c !in users ==> Unregistered(users, cs + [c]) == Unregistered(users, cs)
  {
    var a, b := Unregistered(users, cs + [c]), Unregistered(users, cs);
    if c in users {
      assert a == b[c := b[c].(registered := false)];
    } else {
      assert a == b;
    }
  }

  /** Sends the report to each recipient in turn. A success is counted; an
    * API error that marks the recipient unreachable unregisters it and
    * records it as removed; any other error is ignored. */
  method Broadcast(db: Db, ids: seq<int>, outcome: int -> SendOutcome) returns (sent: nat, removed: seq<int>)
    requires db.Valid()
    modifies db
    ensures db.Valid()
    ensures sent == |DeliveredTo(ids, outcome)| && removed == Removed(ids, outcome)
    ensures db.users == Unregistered(old(db.users), removed)
    ensures db.matti == old(db.matti) && db.sightings == old(db.sightings)
    ensures db.nextMattoId == old(db.nextMattoId) && db.nextSightingId == old(db.nextSightingId) && db.clock == old(db.clock)
  {
    sent, removed := 0, [];
    for i := 0 to |ids|
      invariant db.Valid()
      invariant sent == |DeliveredTo(ids[..i], outcome)| && removed == Removed(ids[..i], outcome)
      invariant db.users == Unregistered(old(db.users), removed)
      invariant db.matti == old(db.matti) && db.sightings == old(db.sightings)
      invariant db.nextMattoId == old(db.nextMattoId) && db.nextSightingId == old(db.nextSightingId) && db.clock == old(db.clock)
    {
      var cid := ids[i];
      PrefixSnoc(ids, i);
      InitOfSnoc(ids[..i], cid);
      match outcome(cid)
      case Delivered =>
        sent := sent + 1;
      case ApiError(text) =>
        if IsUnreachable(text) {
          UnregisteredSnoc(old(db.users), removed, cid);
          db.UnregisterUser(cid);
          removed := removed + [cid];
        }
      case OtherError(_) =>
    }
    TakeAll(ids);
  }

  /** The count the reporter is told, as the handler computes it: successful
    * sends minus removed recipients. A removed recipient was never counted as
    * sent, so it is subtracted from a count it is not part of. */
  function ReportedReachAsWritten(ids: seq<int>, outcome: int -> SendOutcome): (r: int)
    ensures r + |Removed(ids, outcome)| == ReportedReach(ids, outcome)
  {
    |DeliveredTo(ids, outcome)| - |Removed(ids, outcome)|
  }

  /** Three recipients, the second of whom has blocked the bot: the report
    * reaches two of them, and the reporter is told one. */
  lemma ReportedReachAsWrittenUndercounts()
    ensures var outcome := (c: int) => if c == 2 then ApiError("blocked") else Delivered;
            && |DeliveredTo([1, 2, 3], outcome)| == 2
            && ReportedReachAsWritten([1, 2, 3], outcome) == 1
  {
    var outcome := (c: int) => if c == 2 then ApiError("blocked") else Delivered;
    assert Lower("blocked") == "blocked";
    assert "blocked"[..|"blocked"|] == "blocked";
    assert "blocked" in UnreachableMarkers && Contains("blocked", "blocked");
    assert IsUnreachable("blocked");
    assert [1, 2, 3][..2] == [1, 2] && [1, 2][..1] == [1] && [1][..0] == [];
  }

  /** The count the reporter should be told: the recipients the report
    * reached, which is never negative and never more than the recipients
    * minus those found unreachable. */
  function ReportedReach(ids: seq<int>, outcome: int -> SendOutcome): (r: nat)
    ensures r + |Removed(ids, outcome)| <= |ids|
    ensures forall c :: c in ids && outcome(c).Delivered? ==> r > 0
  {
    BroadcastAccounting(ids, outcome);
    forall c | c in ids && outcome(c).Delivered? ensures c in DeliveredTo(ids, outcome) {
      BroadcastMembers(ids, outcome, c);
    }
    |DeliveredTo(ids, outcome)|
  }

  /** What recording a sighting and broadcasting its report leaves behind,
    * from the tables before: the sighting appended under the next id and
    * time, the owner credited, the unreachable recipients among the users
    * registered after the credit unregistered, and `reach` the number the
    * report reached. */
  ghost predicate Reported(users0: map<int, User>, ss0: seq<Sighting>, nextSightingId0: int, clock0: int,
                           chatId: int, mattoId: int, points: int, fileId: string, outcome: int -> SendOutcome,
                           users: map<int, User>, ss: seq<Sighting>, reach: nat)
    requires chatId in users0
  {
    var credited := Credit(users0, chatId, points);
    var ids := RegisteredChatIds(credited);
    && ss == ss0 + [Sighting(nextSightingId0, chatId, mattoId, points, fileId, clock0)]
    && users == Unregistered(credited, Removed(ids, outcome))
    && reach == ReportedReach(ids, outcome)
  }

  /** The database side of `handler_photo` once a choice is consumed: the
    * sighting is recorded and credited, then the report goes to the users
    * registered after the credit, and the unreachable ones are unregistered.
    * Returns the number of recipients the report reached. */
  method RecordAndReport(db: Db, chatId: int, mattoId: int, points: int, fileId: string,
                         outcome: int -> SendOutcome) returns (reach: nat)
    requires db.Valid() && chatId in db.users
    modifies db
    ensures db.Valid()
    ensures Reported(old(db.users), old(db.sightings), old(db.nextSightingId), old(db.clock),
                     chatId, mattoId, points, fileId, outcome, db.users, db.sightings, reach)
    ensures db.users.Keys == old(db.users).Keys
    ensures db.nextSightingId == old(db.nextSightingId) + 1 && db.clock == old(db.clock) + 1
    ensures db.matti == old(db.matti) && db.nextMattoId == old(db.nextMattoId)
  {
    var _ := db.AddSighting(chatId, mattoId, points, fileId);
    var ids := RegisteredChatIds(db.users);
    var removed;
    reach, removed := Broadcast(db, ids, outcome);
  }

  // ---------------------------------------------------------------------------
  // The bot

  /** What `callback_matto` stores for the photo to come: the chosen target
    * and its points at the time of the choice, with the reporter's names. */
  datatype Snapshot = Snapshot(mattoId: int, name: string, points: int, firstName: string, username: string)

  /** How a gallery session request ended. */
  datatype SessionOutcome =
    | Expired
    | NotFound
    | NothingToShow
    | UserGalleryShown(order: seq<string>, stats: map<string, Gallery.Stats>)
    | MattoGalleryShown(name: string, shots: seq<Shot>)

  datatype DeleteOutcome = InvalidId | Denied | Deleted | NotDeleted

  /** How a document sent to the bot was handled. */
  datatype UploadOutcome =
    | Ignored          // not the admin, or no upload pending
    | NoFileName       // the document has no file name: the handler raises
    | NotText          // not a `.txt` file
    | LoadFailed       // fetching, decoding or inserting raised
    | Loaded(count: int)

  class Bot {
    const db: Db
    const adminChatId: int
    const password: string
    /** Chats asked for the password and not yet accepted. */
    var pendingPassword: set<int>
    /** Chats that chose a target and owe its photo. */
    var pendingMatto: map<int, Snapshot>
    /** Chats that picked a user whose gallery they are about to see. */
    var pendingGalleryUser: map<int, int>
    /** Chats that picked a target whose gallery they are about to see. */
    var pendingGalleryMatto: map<int, int>
    /** The user the admin last opened for managing; written, never read. */
    var pendingManageUser: map<int, int>
    /** The admin asked to upload a catalog and has not sent it yet. */
    var uploadPending: bool

    /** The tables are consistent, and whoever waits for a password or owes a
      * photo has a row. */
    ghost predicate Valid()
      reads this, db
    {
      db.Valid() && pendingPassword <= db.users.Keys && pendingMatto.Keys <= db.users.Keys
    }

    constructor (db: Db, adminChatId: int, password: string)
      requires db.Valid()
      ensures Valid()
      ensures this.db == db && this.adminChatId == adminChatId && this.password == password
      ensures pendingPassword == {} && pendingMatto == map[] && pendingGalleryUser == map[]
      ensures pendingGalleryMatto == map[] && pendingManageUser == map[] && !uploadPending
    {
      this.db := db;
      this.adminChatId := adminChatId;
      this.password := password;
      pendingPassword, pendingMatto := {}, map[];
      pendingGalleryUser, pendingGalleryMatto, pendingManageUser := map[], map[], map[];
      uploadPending := false;
    }

    /** `/start`: the user gets a row if missing; a user who is not yet
      * registered is asked for the password. */
    method Start(chatId: int, username: string, firstName: string) returns (askPassword: bool)
      requires Valid()
      modifies this, db
      ensures Valid()
      ensures db.users == if chatId in old(db.users) then old(db.users)
                          else old(db.users)[chatId := User(username, firstName, false, 0)]
      ensures askPassword <==> !db.users[chatId].registered
      ensures pendingPassword == if askPassword then old(pendingPassword) + {chatId} else old(pendingPassword)
      ensures db.sightings == old(db.sightings) && db.matti == old(db.matti)
      ensures db.nextMattoId == old(db.nextMattoId) && db.nextSightingId == old(db.nextSightingId) && db.clock == old(db.clock)
      ensures pendingMatto == old(pendingMatto) && uploadPending == old(uploadPending)
      ensures pendingGalleryUser == old(pendingGalleryUser) && pendingGalleryMatto == old(pendingGalleryMatto)
      ensures pendingManageUser == old(pendingManageUser)
    {
      db.RegisterUser(chatId, username, firstName);
      askPassword := !db.users[chatId].registered;
      if askPassword {
        pendingPassword := pendingPassword + {chatId};
      }
    }

    /** A message from a chat waiting for the password: the stripped text
      * equal to the password registers the user and ends the wait; anything
      * else leaves everything as it was. */
    method SubmitPassword(chatId: int, text: string) returns (accepted: bool)
      requires Valid() && chatId in pendingPassword
      modifies this, db
      ensures Valid()
      ensures accepted <==> Strip(text) == password
      ensures accepted ==> pendingPassword == old(pendingPassword) - {chatId}
                           && db.users == old(db.users)[chatId := old(db.users)[chatId].(registered := true)]
      ensures !accepted ==> pendingPassword == old(pendingPassword) && db.users == old(db.users)
      ensures db.sightings == old(db.sightings) && db.matti == old(db.matti)
      ensures db.nextMattoId == old(db.nextMattoId) && db.nextSightingId == old(db.nextSightingId) && db.clock == old(db.clock)
      ensures pendingMatto == old(pendingMatto) && uploadPending == old(uploadPending)
      ensures pendingGalleryUser == old(pendingGalleryUser) && pendingGalleryMatto == old(pendingGalleryMatto)
      ensures pendingManageUser == old(pendingManageUser)
    {
      var answer := Strip(text);
      accepted := answer == password;
      if accepted {
        db.SetRegistered(chatId, true);
        pendingPassword := pendingPassword - {chatId};
      }
    }

    /** `callback_matto`: a valid id of a target in the catalog stores a
      * snapshot of it for the photo to come, replacing any earlier one; an
      * invalid or unknown id changes nothing. */
    method ChooseMatto(chatId: int, arg: string, firstName: string, username: string) returns (chosen: Option<Snapshot>)
      requires Valid() && chatId in db.users
      modifies this
      ensures Valid()
      ensures chosen.Some? <==> ParseId(arg).Some? && ParseId(arg).value in db.matti
      ensures chosen.Some? ==>
                var id := ParseId(arg).value;
                && chosen.value == Snapshot(id, db.matti[id].name, db.matti[id].points, firstName, username)
                && pendingMatto == old(pendingMatto)[chatId := chosen.value]
      ensures chosen.None? ==> pendingMatto == old(pendingMatto)
      ensures pendingPassword == old(pendingPassword) && uploadPending == old(uploadPending)
      ensures pendingGalleryUser == old(pendingGalleryUser) && pendingGalleryMatto == old(pendingGalleryMatto)
      ensures pendingManageUser == old(pendingManageUser)
    {
      var id := ParseId(arg);
      if id.None? || id.value !in db.matti {
        return None;
      }
      var m := db.matti[id.value];
      chosen := Some(Snapshot(id.value, m.name, m.points, firstName, username));
      pendingMatto := pendingMatto[chatId := chosen.value];
    }

    /** `handler_photo`: without a pending choice a photo is ignored.
      * Otherwise the choice is consumed, the sighting is recorded with the
      * snapshot's points (not the catalog's current ones), and the report is
      * broadcast to every registered user; unreachable ones are unregistered.
      * Returns the number of recipients the report reached, `ReportedReach`.
      * The confirmation as written shows that number minus the recipients
      * removed, as `ReportedReachAsWritten` states. */
    method SubmitPhoto(chatId: int, fileId: string, outcome: int -> SendOutcome) returns (reach: Option<nat>)
      requires Valid()
      modifies this, db
      ensures Valid()
      ensures chatId !in old(pendingMatto) ==>
                && reach.None? && pendingMatto == old(pendingMatto)
                && db.users == old(db.users) && db.sightings == old(db.sightings)
                && db.nextSightingId == old(db.nextSightingId) && db.clock == old(db.clock)
      ensures chatId in old(pendingMatto) ==>
                var snap := old(pendingMatto)[chatId];
                && pendingMatto == old(pendingMatto) - {chatId}
                && reach.Some?
                && Reported(old(db.users), old(db.sightings), old(db.nextSightingId), old(db.clock),
                            chatId, snap.mattoId, snap.points, fileId, outcome, db.users, db.sightings, reach.value)
                && db.nextSightingId == old(db.nextSightingId) + 1 && db.clock == old(db.clock) + 1
      ensures db.matti == old(db.matti) && db.nextMattoId == old(db.nextMattoId)
      ensures pendingPassword == old(pendingPassword) && uploadPending == old(uploadPending)
      ensures pendingGalleryUser == old(pendingGalleryUser) && pendingGalleryMatto == old(pendingGalleryMatto)
      ensures pendingManageUser == old(pendingManageUser)
    {
      if chatId !in pendingMatto {
        return None;
      }
      var snap := pendingMatto[chatId];
      var sent := RecordAndReport(db, chatId, snap.mattoId, snap.points, fileId, outcome);
      pendingMatto := pendingMatto - {chatId};
      reach := Some(sent);
    }

    /** `callback_select_user`: a valid id opens a user-gallery session for
      * that user, replacing any earlier one. */
    method SelectUser(chatId: int, arg: string) returns (ok: bool)
      requires Valid()
      modifies this
      ensures Valid()
      ensures ok <==> ParseId(arg).Some?
      ensures pendingGalleryUser == if ok then old(pendingGalleryUser)[chatId := ParseId(arg).value] else old(pendingGalleryUser)
      ensures pendingPassword == old(pendingPassword) && pendingMatto == old(pendingMatto)
      ensures pendingGalleryMatto == old(pendingGalleryMatto) && pendingManageUser == old(pendingManageUser)
      ensures uploadPending == old(uploadPending)
    {
      var id := ParseId(arg);
      ok := id.Some?;
      if ok {
        pendingGalleryUser := pendingGalleryUser[chatId := id.value];
      }
    }

    /** `callback_select_matto`: a valid id opens a target-gallery session for
      * that target, replacing any earlier one. */
    method SelectMatto(chatId: int, arg: string) returns (ok: bool)
      requires Valid()
      modifies this
      ensures Valid()
      ensures ok <==> ParseId(arg).Some?
      ensures pendingGalleryMatto == if ok then old(pendingGalleryMatto)[chatId := ParseId(arg).value] else old(pendingGalleryMatto)
      ensures pendingPassword == old(pendingPassword) && pendingMatto == old(pendingMatto)
      ensures pendingGalleryUser == old(pendingGalleryUser) && pendingManageUser == old(pendingManageUser)
      ensures uploadPending == old(uploadPending)
    {
      var id := ParseId(arg);
      ok := id.Some?;
      if ok {
        pendingGalleryMatto := pendingGalleryMatto[chatId := id.value];
      }
    }

    /** `callback_gallery_mode`: without a session the request has expired.
      * An empty gallery is reported and the session kept; otherwise the
      * groups are shown, and the session ends once they have been. The
      * display mode only changes how the groups are rendered. `displayed`
      * says whether every message sent outside a `try` went through: when
      * one raises, the handler stops before it ends the session. */
    method GalleryMode(chatId: int, displayed: bool) returns (shown: SessionOutcome)
      requires Valid()
      modifies this
      ensures Valid()
      ensures chatId !in old(pendingGalleryUser) ==> shown == Expired && pendingGalleryUser == old(pendingGalleryUser)
      ensures chatId in old(pendingGalleryUser) ==>
                var rows := GalleryRows(db.matti, db.sightings, old(pendingGalleryUser)[chatId]);
                && (rows == [] ==> shown == NothingToShow && pendingGalleryUser == old(pendingGalleryUser))
                && (rows != [] ==>
                      && shown == UserGalleryShown(Gallery.NamesInOrder(rows), Gallery.StatsByName(rows))
                      && pendingGalleryUser == if displayed then old(pendingGalleryUser) - {chatId} else old(pendingGalleryUser))
      ensures pendingPassword == old(pendingPassword) && pendingMatto == old(pendingMatto)
      ensures pendingGalleryMatto == old(pendingGalleryMatto) && pendingManageUser == old(pendingManageUser)
      ensures uploadPending == old(uploadPending)
    {
      if chatId !in pendingGalleryUser {
        return Expired;
      }
      var c := pendingGalleryUser[chatId];
      var order, stats := UserGallery(db.matti, db.sightings, c);
      if order == [] {
        return NothingToShow;
      }
      shown := UserGalleryShown(order, stats);
      if displayed {
        pendingGalleryUser := pendingGalleryUser - {chatId};
      }
    }

    /** `callback_matto_mode`: without a session the request has expired. A
      * target no longer in the catalog, or one without photos, is reported
      * and the session kept; otherwise its gallery is shown, and the session
      * ends once it has been. `displayed` says whether every message sent
      * outside a `try` went through: when one raises, the handler stops
      * before it ends the session. */
    method MattoMode(chatId: int, displayed: bool) returns (shown: SessionOutcome)
      requires Valid()
      modifies this
      ensures Valid()
      ensures chatId !in old(pendingGalleryMatto) ==> shown == Expired && pendingGalleryMatto == old(pendingGalleryMatto)
      ensures chatId in old(pendingGalleryMatto) ==>
                var id := old(pendingGalleryMatto)[chatId];
                && (id !in db.matti ==> shown == NotFound && pendingGalleryMatto == old(pendingGalleryMatto))
                && (id in db.matti && MattoGallery(db.users, db.sightings, id) == [] ==>
                      shown == NothingToShow && pendingGalleryMatto == old(pendingGalleryMatto))
                && (id in db.matti && MattoGallery(db.users, db.sightings, id) != [] ==>
                      && shown == MattoGalleryShown(db.matti[id].name, MattoGallery(db.users, db.sightings, id))
                      && pendingGalleryMatto == if displayed then old(pendingGalleryMatto) - {chatId} else old(pendingGalleryMatto))
      ensures pendingPassword == old(pendingPassword) && pendingMatto == old(pendingMatto)
      ensures pendingGalleryUser == old(pendingGalleryUser) && pendingManageUser == old(pendingManageUser)
      ensures uploadPending == old(uploadPending)
    {
      if chatId !in pendingGalleryMatto {
        return Expired;
      }
      var id := pendingGalleryMatto[chatId];
      if id !in db.matti {
        return NotFound;
      }
      var shots := MattoGallery(db.users, db.sightings, id);
      if shots == [] {
        return NothingToShow;
      }
      shown := MattoGalleryShown(db.matti[id].name, shots);
      if displayed {
        pendingGalleryMatto := pendingGalleryMatto - {chatId};
      }
    }

    /** `callback_manage_user`: a valid id is remembered for the chat and the
      * user's gallery is listed with a delete button per photo; an empty
      * gallery is reported instead. No admin check is made here. */
    method ManageUser(chatId: int, arg: string) returns (shown: Option<SessionOutcome>)
      requires Valid()
      modifies this
      ensures Valid()
      ensures shown.None? <==> ParseId(arg).None?
      ensures pendingManageUser == if shown.Some? then old(pendingManageUser)[chatId := ParseId(arg).value] else old(pendingManageUser)
      ensures shown.Some? ==>
                var rows := GalleryRows(db.matti, db.sightings, ParseId(arg).value);
                && (rows == [] ==> shown.value == NothingToShow)
                && (rows != [] ==>
                      && shown.value == UserGalleryShown(Gallery.NamesInOrder(rows), Gallery.StatsByName(rows)))
      ensures pendingPassword == old(pendingPassword) && pendingMatto == old(pendingMatto)
      ensures pendingGalleryUser == old(pendingGalleryUser) && pendingGalleryMatto == old(pendingGalleryMatto)
      ensures uploadPending == old(uploadPending)
    {
      var id := ParseId(arg);
      if id.None? {
        return None;
      }
      pendingManageUser := pendingManageUser[chatId := id.value];
      var order, stats := UserGallery(db.matti, db.sightings, id.value);
      if order == [] {
        return Some(NothingToShow);
      }
      shown := Some(UserGalleryShown(order, stats));
    }

    /** `callback_delete_sighting`: the id is checked first, then that the
      * caller is the admin; only then is the sighting deleted. */
    method AdminDelete(chatId: int, arg: string) returns (result: DeleteOutcome)
      requires Valid()
      modifies db
      ensures Valid()
      ensures result == if ParseId(arg).None? then InvalidId
                        else if chatId != adminChatId then Denied
                        else if old(Find(db.sightings, ParseId(arg).value)).Some? then Deleted
                        else NotDeleted
      ensures result != Deleted ==> db.users == old(db.users) && db.sightings == old(db.sightings)
      ensures result == Deleted ==>
                var k := old(Find(db.sightings, ParseId(arg).value)).value;
                && db.sightings == RemoveAt(old(db.sightings), k)
                && db.users == Credit(old(db.users), old(db.sightings)[k].user, -old(db.sightings)[k].points)
      ensures db.matti == old(db.matti)
      ensures db.nextMattoId == old(db.nextMattoId) && db.nextSightingId == old(db.nextSightingId) && db.clock == old(db.clock)
    {
      var id := ParseId(arg);
      if id.None? {
        return InvalidId;
      }
      if chatId != adminChatId {
        return Denied;
      }
      var found := db.DeleteSighting(id.value);
      result := if found then Deleted else NotDeleted;
    }

    /** `/upload_matti`: only the admin can start an upload. */
    method UploadCommand(chatId: int) returns (accepted: bool)
      requires Valid()
      modifies this
      ensures Valid()
      ensures accepted <==> chatId == adminChatId
      ensures uploadPending == (accepted || old(uploadPending))
      ensures pendingPassword == old(pendingPassword) && pendingMatto == old(pendingMatto)
      ensures pendingGalleryUser == old(pendingGalleryUser) && pendingGalleryMatto == old(pendingGalleryMatto)
      ensures pendingManageUser == old(pendingManageUser)
    {
      accepted := chatId == adminChatId;
      if accepted {
        uploadPending := true;
      }
    }

    /** `handler_document`: ignored unless the admin is uploading. A
      * document without a file name raises before anything changes. A file
      * not named `*.txt` (in any case) is refused; a file that cannot be
      * fetched or decoded (`lines` is `None`) loads nothing; otherwise its
      * lines replace the catalog, as far as the insert gets. A refusal or a
      * failure ends the upload only if the reply telling the admin went
      * through (`replied`), since the handler sends it first; a load ends it
      * before its reply. */
    method Document(chatId: int, fileName: Option<string>, lines: Option<seq<string>>, replied: bool)
      returns (result: UploadOutcome)
      requires Valid()
      modifies this, db
      ensures Valid()
      ensures result == if chatId != adminChatId || !old(uploadPending) then Ignored
                        else if fileName.None? then NoFileName
                        else if !EndsWith(Lower(fileName.value), ".txt") then NotText
                        else if lines.None? || Reloaded(lines.value) != Catalog.Parsed(lines.value) then LoadFailed
                        else Loaded(|Catalog.Parsed(lines.value)|)
      ensures uploadPending == if result == Ignored || result == NoFileName then old(uploadPending)
                               else if result.Loaded? then false
                               else !replied
      ensures result.Loaded? || (result == LoadFailed && lines.Some?) ==>
                && db.matti == Numbered(Reloaded(lines.value), old(db.nextMattoId))
                && db.nextMattoId == old(db.nextMattoId) + |Reloaded(lines.value)|
                && db.sightings == []
                && db.users == ZeroTotals(old(db.users))
      ensures !(result.Loaded? || (result == LoadFailed && lines.Some?)) ==>
                && db.users == old(db.users) && db.matti == old(db.matti) && db.sightings == old(db.sightings)
                && db.nextMattoId == old(db.nextMattoId)
      ensures db.nextSightingId == old(db.nextSightingId) && db.clock == old(db.clock)
      ensures pendingPassword == old(pendingPassword) && pendingMatto == old(pendingMatto)
      ensures pendingGalleryUser == old(pendingGalleryUser) && pendingGalleryMatto == old(pendingGalleryMatto)
      ensures pendingManageUser == old(pendingManageUser)
    {
      if chatId != adminChatId || !uploadPending {
        return Ignored;
      }
      if fileName.None? {
        return NoFileName;
      }
      if !EndsWith(Lower(fileName.value), ".txt") {
        uploadPending := !replied;
        return NotText;
      }
      if lines.None? {
        uploadPending := !replied;
        return LoadFailed;
      }
      var n := db.LoadMatti(lines.value);
      if n.None? {
        uploadPending := !replied;
        return LoadFailed;
      }
      uploadPending := false;
      result := Loaded(n.value);
    }
  }
}
