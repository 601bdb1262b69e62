// Deleting an account: the cascade over five collections, the stored photos and the user.
module AccountDeletion {
  import opened Documents
  import opened Ordering
  import opened PublicUrls

  datatype Block = Block(blockerId: Id, blockedId: Id)

  datatype World = World(db: Database, blocks: map<Id, Block>)

  // The deletions that `deleteAccount` starts in parallel.
  datatype Deletion = Messages | Dialogs | Matches | Likes | Blocks

  const ALL_DELETIONS := {Messages, Dialogs, Matches, Likes, Blocks}

  /******* Who mentions a user *******/

  predicate DialogOf(dialog: Dialog, u: Id) {
    dialog.user1 == u || dialog.user2 == u
  }

  predicate MatchOf(m: Match, u: Id) {
    m.user1 == u || m.user2 == u
  }

  predicate LikeOf(l: Like, u: Id) {
    l.userId == u || l.likedUserId == u
  }

  predicate BlockOf(b: Block, u: Id) {
    b.blockerId == u || b.blockedId == u
  }

  function DialogIds(ds: map<Id, Dialog>, u: Id): set<Id> {
    set d | d in ds && DialogOf(ds[d], u)
  }

  /** No document mentions the user, as participant, sender or in a block. */
  ghost predicate NoTrace(w: World, u: Id) {
    && (forall i :: i in w.db.likes ==> w.db.likes[i].userId != u && w.db.likes[i].likedUserId != u)
    && (forall k :: k in w.db.matches ==> w.db.matches[k].user1 != u && w.db.matches[k].user2 != u)
    && (forall d :: d in w.db.dialogs ==> w.db.dialogs[d].user1 != u && w.db.dialogs[d].user2 != u)
    && (forall m :: m in w.db.messages ==> w.db.messages[m].sender != u)
    && (forall b :: b in w.blocks ==> w.blocks[b].blockerId != u && w.blocks[b].blockedId != u)
  }

  /******* One deletion, and all of them *******/

  // A deletion; the ids of the user's dialogs were read before any of them began.
  function Delete(w: World, u: Id, dialogIds: set<Id>, deletion: Deletion): World {
    match deletion
    case Messages => w.(db := w.db.(messages := map m | m in w.db.messages && w.db.messages[m].dialogId !in dialogIds :: w.db.messages[m]))
    case Dialogs => w.(db := w.db.(dialogs := w.db.dialogs - dialogIds))
    case Matches => w.(db := w.db.(matches := map k | k in w.db.matches && !MatchOf(w.db.matches[k], u) :: w.db.matches[k]))
    case Likes => w.(db := w.db.(likes := map i | i in w.db.likes && !LikeOf(w.db.likes[i], u) :: w.db.likes[i]))
    case Blocks => w.(blocks := map b | b in w.blocks && !BlockOf(w.blocks[b], u) :: w.blocks[b])
  }

  function DeleteAll(w: World, u: Id, dialogIds: set<Id>, order: seq<Deletion>): World {
    if order == [] then w
    else Delete(DeleteAll(w, u, dialogIds, order[..|order| - 1]), u, dialogIds, order[|order| - 1])
  }

  // What is left when the deletions of `done` have completed.
  ghost function Remaining(w: World, u: Id, done: set<Deletion>): World {
    var ids := DialogIds(w.db.dialogs, u);
    World(
      Database(
        map i | i in w.db.likes && (Likes in done ==> !LikeOf(w.db.likes[i], u)) :: w.db.likes[i],
        map k | k in w.db.matches && (Matches in done ==> !MatchOf(w.db.matches[k], u)) :: w.db.matches[k],
        map d | d in w.db.dialogs && (Dialogs in done ==> !DialogOf(w.db.dialogs[d], u)) :: w.db.dialogs[d],
        map m | m in w.db.messages && (Messages in done ==> w.db.messages[m].dialogId !in ids) :: w.db.messages[m]),
      map b | b in w.blocks && (Blocks in done ==> !BlockOf(w.blocks[b], u)) :: w.blocks[b])
  }

  lemma DeleteOne(w: World, u: Id, done: set<Deletion>, deletion: Deletion)
    ensures Delete(Remaining(w, u, done), u, DialogIds(w.db.dialogs, u), deletion) == Remaining(w, u, done + {deletion})
  {
    match deletion
    case Messages =>
    case Dialogs =>
    case Matches =>
    case Likes =>
    case Blocks =>
  }

  /** The order of the deletions does not matter. */
  lemma {:induction false} AnyOrder(w: World, u: Id, order: seq<Deletion>)
    ensures DeleteAll(w, u, DialogIds(w.db.dialogs, u), order) == Remaining(w, u, Elements(order))
  {
    var ids := DialogIds(w.db.dialogs, u);
    if order == [] {
      assert Remaining(w, u, {}) == w;
      assert Elements(order) == {};
    } else {
      var n := |order| - 1;
      AnyOrder(w, u, order[..n]);
      DeleteOne(w, u, Elements(order[..n]), order[n]);
      assert order == order[..n] + [order[n]];
      assert Elements(order) == Elements(order[..n]) + {order[n]};
    }
  }

  /******* The cascade *******/

  /** Only documents of the user go, and everything else stays as it is. */
  ghost predicate OnlyUserErased(w: World, after: World, u: Id) {
    && after.db.likes ==
       (map i | i in w.db.likes && w.db.likes[i].userId != u && w.db.likes[i].likedUserId != u :: w.db.likes[i])
    && after.db.matches ==
       (map k | k in w.db.matches && w.db.matches[k].user1 != u && w.db.matches[k].user2 != u :: w.db.matches[k])
    && after.db.dialogs ==
       (map d | d in w.db.dialogs && w.db.dialogs[d].user1 != u && w.db.dialogs[d].user2 != u :: w.db.dialogs[d])
    && after.blocks == (map b | b in w.blocks && w.blocks[b].blockerId != u && w.blocks[b].blockedId != u :: w.blocks[b])
    && after.db.messages ==
       (map m | m in w.db.messages
                && (w.db.messages[m].dialogId in w.db.dialogs ==>
                      var d := w.db.dialogs[w.db.messages[m].dialogId];
                      d.user1 != u && d.user2 != u) :: w.db.messages[m])
  }

  lemma CascadeErasesUser(w: World, u: Id)
    ensures OnlyUserErased(w, Remaining(w, u, ALL_DELETIONS), u)
  {
  }

  /** The cascade leaves no trace exactly when each of the user's messages lies in a dialog of theirs. */
  lemma CascadeIsComplete(w: World, u: Id)
    ensures NoTrace(Remaining(w, u, ALL_DELETIONS), u) <==>
            forall m :: m in w.db.messages && w.db.messages[m].sender == u ==>
              && w.db.messages[m].dialogId in w.db.dialogs
              && var d := w.db.dialogs[w.db.messages[m].dialogId];
              d.user1 == u || d.user2 == u
  {
    var after := Remaining(w, u, ALL_DELETIONS);
    if m :| m in w.db.messages && w.db.messages[m].sender == u && m in after.db.messages {
      assert !NoTrace(after, u);
    }
  }

  /** In a well-formed database the cascade leaves no trace of the user, and a well-formed database. */
  lemma CascadeKeepsWellFormed(w: World, u: Id)
    requires WellFormed(w.db)
    ensures NoTrace(Remaining(w, u, ALL_DELETIONS), u)
    ensures WellFormed(Remaining(w, u, ALL_DELETIONS).db)
  {
    CascadeIsComplete(w, u);
    var after := Remaining(w, u, ALL_DELETIONS).db;
    forall d | d in after.dialogs ensures after.dialogs[d].matchId in after.matches {
      DialogUsersAreMatchUsers(w.db, d);
    }
  }

  lemma DialogUsersAreMatchUsers(db: Database, d: Id)
    requires WellFormed(db) && d in db.dialogs
    ensures forall u :: DialogOf(db.dialogs[d], u) <==> MatchOf(db.matches[db.dialogs[d].matchId], u)
  {
    assert CanonicalPair(db.dialogs[d].user1, db.dialogs[d].user2) == PairOf(db.matches[db.dialogs[d].matchId]);
  }

  /******* A crash part of the way *******/

  /**
   * After a crash with the deletions of `done` completed, running the cascade again leaves no trace, unless the
   * dialogs were deleted and the messages were not: messages the user sent are then out of its reach.
   */
  lemma RerunAfterCrash(w: World, u: Id, done: set<Deletion>)
    requires WellFormed(w.db)
    ensures NoTrace(Remaining(Remaining(w, u, done), u, ALL_DELETIONS), u) <==>
            (Dialogs in done && Messages !in done ==> forall m :: m in w.db.messages ==> w.db.messages[m].sender != u)
  {
    var crashed := Remaining(w, u, done);
    CascadeIsComplete(crashed, u);
    if Dialogs in done && Messages !in done {
      if m :| m in w.db.messages && w.db.messages[m].sender == u {
        assert m in crashed.db.messages && crashed.db.messages[m] == w.db.messages[m];
        assert w.db.messages[m].dialogId !in crashed.db.dialogs;
      }
    }
  }

  /** Such a database exists: the dialog is gone, its message stays, and a rerun does not find it. */
  lemma MessageLeftBehind() returns (w: World, u: Id, done: set<Deletion>)
    ensures WellFormed(w.db) && done == {Dialogs}
    ensures !NoTrace(Remaining(Remaining(w, u, done), u, ALL_DELETIONS), u)
  {
    var dialog := Dialog(1, 2, 3, true, None);
    w := World(Database(map[], map[1 := Match(2, 3)], map[10 := dialog], map[100 := Message(10, 2, 0, "")]), map[]);
    u, done := 2, {Dialogs};
    assert w.db.messages[100].sender == u;
    RerunAfterCrash(w, u, done);
  }

  /******* The whole account *******/

  datatype Account = Account(w: World, users: set<Id>, objects: set<string>)

  /** What an uninterrupted deletion leaves. */
  ghost function Erased(a: Account, u: Id, hexId: string): Account {
    if u !in a.users then a
    else Account(Remaining(a.w, u, ALL_DELETIONS), a.users - {u},
                 set key | key in a.objects && !StartsWith(key, UserPrefix(hexId)))
  }

  // A deletion died with the collections of `done` dealt with: objects go after all of them, and the user last.
  ghost predicate Crashed(a: Account, u: Id, hexId: string, done: set<Deletion>, c: Account) {
    && c.w == Remaining(a.w, u, done)
    && c.objects <= a.objects
    && (forall key :: key in a.objects && key !in c.objects ==> StartsWith(key, UserPrefix(hexId)) && done == ALL_DELETIONS)
    && (c.users == a.users
        || (c.users == a.users - {u} && done == ALL_DELETIONS
            && forall key :: key in c.objects ==> !StartsWith(key, UserPrefix(hexId))))
  }

  /**
   * Deleting the account again ends where an uninterrupted deletion would have, in all collections, objects and users,
   * unless the dialogs were deleted, the messages were not and some message lay in a dialog of the user.
   */
  lemma RerunErasesAccount(a: Account, u: Id, hexId: string, done: set<Deletion>, c: Account)
    requires u in a.users && Crashed(a, u, hexId, done, c)
    ensures Erased(c, u, hexId) == Erased(a, u, hexId) <==>
            (Dialogs in done && Messages !in done ==>
               forall m :: m in a.w.db.messages ==> a.w.db.messages[m].dialogId !in DialogIds(a.w.db.dialogs, u))
  {
    if done == ALL_DELETIONS {
      NothingLeftToErase(a.w, u);
    }
    RerunOfCascade(a.w, u, done);
    hide Remaining;
    var again, once := Erased(c, u, hexId), Erased(a, u, hexId);
    assert again.objects == once.objects && again.users == once.users;
  }

  lemma NothingLeftToErase(w: World, u: Id)
    ensures Remaining(Remaining(w, u, ALL_DELETIONS), u, ALL_DELETIONS) == Remaining(w, u, ALL_DELETIONS)
  {
  }

  lemma RerunOfCascade(w: World, u: Id, done: set<Deletion>)
    ensures Remaining(Remaining(w, u, done), u, ALL_DELETIONS) == Remaining(w, u, ALL_DELETIONS) <==>
            (Dialogs in done && Messages !in done ==>
               forall m :: m in w.db.messages ==> w.db.messages[m].dialogId !in DialogIds(w.db.dialogs, u))
  {
    var crashed := Remaining(w, u, done);
    var again, once := Remaining(crashed, u, ALL_DELETIONS), Remaining(w, u, ALL_DELETIONS);
    RerunOfDialogs(w, u, done);
    assert again.db.likes == once.db.likes && again.db.matches == once.db.matches && again.db.dialogs == once.db.dialogs;
    assert again.blocks == once.blocks;
    if Dialogs in done && Messages !in done {
      if m :| m in w.db.messages && w.db.messages[m].dialogId in DialogIds(w.db.dialogs, u) {
        assert m in again.db.messages && m !in once.db.messages;
      } else {
        assert again.db.messages == once.db.messages;
      }
    } else {
      assert again.db.messages == once.db.messages;
    }
  }

  // What is left of the user's dialogs: none, or all of them.
  lemma RerunOfDialogs(w: World, u: Id, done: set<Deletion>)
    ensures DialogIds(Remaining(w, u, done).db.dialogs, u) == if Dialogs in done then {} else DialogIds(w.db.dialogs, u)
  {
  }

  /******* The method *******/

  class UsersService {
    var users: set<Id>
    var db: Database
    var blocks: map<Id, Block>
    var objects: set<string>

    constructor (users: set<Id>, w: World, objects: set<string>)
      ensures this.users == users && db == w.db && blocks == w.blocks && this.objects == objects
    {
      this.users, db, blocks, this.objects := users, w.db, w.blocks, objects;
    }

    function State(): World
      reads this
    {
      World(db, blocks)
    }

    method Perform(deletion: Deletion, userId: Id, dialogIds: set<Id>)
      modifies `db, `blocks
      ensures State() == Delete(old(State()), userId, dialogIds, deletion)
    {
      match deletion
      case Messages => db := db.(messages := map m | m in db.messages && db.messages[m].dialogId !in dialogIds :: db.messages[m]);
      case Dialogs => db := db.(dialogs := db.dialogs - dialogIds);
      case Matches => db := db.(matches := map k | k in db.matches && !MatchOf(db.matches[k], userId) :: db.matches[k]);
      case Likes => db := db.(likes := map i | i in db.likes && !LikeOf(db.likes[i], userId) :: db.likes[i]);
      case Blocks => blocks := map b | b in blocks && !BlockOf(blocks[b], userId) :: blocks[b];
    }

    /** Erases the user and nothing else, in whatever order the five deletions take effect. */
    method DeleteAccount(userId: Id, hexId: string, order: seq<Deletion>) returns (found: bool)
      requires Elements(order) == ALL_DELETIONS && NoRepeats(order)
      modifies this
      ensures found <==> userId in old(users)
      ensures !found ==> State() == old(State()) && users == old(users) && objects == old(objects)
      ensures found ==> users == old(users) - {userId} && OnlyUserErased(old(State()), State(), userId)
      ensures found ==> objects == set key | key in old(objects) && !("users/" + hexId + "/" <= key)
      ensures Account(State(), users, objects) == Erased(old(Account(State(), users, objects)), userId, hexId)
      ensures found && WellFormed(old(db)) ==> NoTrace(State(), userId) && WellFormed(db)
    {
      if userId !in users {
        return false;
      }
      var dialogIds := set d | d in db.dialogs && DialogOf(db.dialogs[d], userId);
      assert dialogIds == DialogIds(db.dialogs, userId);
      ghost var before := State();
      for n := 0 to |order|
        invariant State() == DeleteAll(before, userId, dialogIds, order[..n])
        invariant users == old(users) && objects == old(objects)
      {
        Perform(order[n], userId, dialogIds);
        assert order[..n + 1][..n] == order[..n];
      }
      assert order[..|order|] == order;
      AnyOrder(before, userId, order);
      CascadeErasesUser(before, userId);
      if WellFormed(before.db) {
        CascadeKeepsWellFormed(before, userId);
      }
      objects := set key | key in objects && !StartsWith(key, UserPrefix(hexId));
      users := users - {userId};
      return true;
    }
  }

  /** No other user's photo is deleted with an account. */
  lemma OtherPhotosKept(hexId: string, otherHexId: string, uuid: string)
    requires '/' !in hexId && '/' !in otherHexId && hexId != otherHexId
    ensures StartsWith(PhotoKey(hexId, uuid), UserPrefix(hexId))
    ensures !StartsWith(PhotoKey(otherHexId, uuid), UserPrefix(hexId))
  {
    if StartsWith(PhotoKey(otherHexId, uuid), UserPrefix(hexId)) {
      PrefixesDisjoint(hexId, otherHexId, PhotoKey(otherHexId, uuid));
    }
  }
}
