// What the relationship migration makes of a database, in closed form.
module MigrationSpec {
  import opened Documents
  import opened Ordering

  /******* Likes *******/

  function LikeKey(l: Like): (Id, Id) {
    (l.userId, l.likedUserId)
  }

  ghost predicate FirstLike(likes: map<Id, Like>, i: Id) {
    && i in likes
    && forall j :: j in likes && LikeKey(likes[j]) == LikeKey(likes[i]) ==> i <= j
  }

  ghost function FinalLikes(likes: map<Id, Like>): map<Id, Like> {
    map i | i in likes && FirstLike(likes, i) :: likes[i]
  }

  /******* Matches *******/

  // The matches of the same two users as match k.
  ghost function MatchClass(ms: map<Id, Match>, k: Id): set<Id>
    requires k in ms
  {
    set n | n in ms && PairOf(ms[n]) == PairOf(ms[k])
  }

  // The match that replaces k: the oldest of its pair. A missing match stands for itself.
  ghost function FinalMatch(ms: map<Id, Match>, k: Id): Id {
    if k in ms then
      assert k in MatchClass(ms, k);
      Least(MatchClass(ms, k))
    else k
  }

  ghost function FinalMatches(ms: map<Id, Match>): map<Id, Match> {
    map k | k in ms && FinalMatch(ms, k) == k ::
      if MatchClass(ms, k) == {k} then ms[k] else Match(PairOf(ms[k]).0, PairOf(ms[k]).1)
  }

  lemma FinalMatchIsLeast(ms: map<Id, Match>, k: Id)
    requires k in ms
    ensures FinalMatch(ms, k) in MatchClass(ms, k)
    ensures forall n :: n in MatchClass(ms, k) ==> FinalMatch(ms, k) <= n && FinalMatch(ms, n) == FinalMatch(ms, k)
    ensures FinalMatch(ms, FinalMatch(ms, k)) == FinalMatch(ms, k)
  {
    assert k in MatchClass(ms, k);
    forall n | n in MatchClass(ms, k) ensures FinalMatch(ms, n) == FinalMatch(ms, k) {
      assert MatchClass(ms, n) == MatchClass(ms, k);
    }
  }

  lemma SameFinalMatch(ms: map<Id, Match>, k: Id, n: Id)
    requires k in ms && n in ms
    ensures FinalMatch(ms, k) == FinalMatch(ms, n) <==> PairOf(ms[k]) == PairOf(ms[n])
  {
    FinalMatchIsLeast(ms, k);
    FinalMatchIsLeast(ms, n);
    if PairOf(ms[k]) == PairOf(ms[n]) {
      assert n in MatchClass(ms, k);
    }
  }

  /******* Dialogs and messages *******/

  // The dialogs that end up under the same match as d; a dialog of a missing match is left alone.
  ghost function DialogClass(ms: map<Id, Match>, ds: map<Id, Dialog>, d: Id): set<Id>
    requires d in ds
  {
    if ds[d].matchId in ms
    then set e | e in ds && FinalMatch(ms, ds[e].matchId) == FinalMatch(ms, ds[d].matchId)
    else {d}
  }

  // The dialog that receives the messages of d: the oldest of its class.
  ghost function FinalDialog(ms: map<Id, Match>, ds: map<Id, Dialog>, d: Id): Id {
    if d in ds then
      assert d in DialogClass(ms, ds, d);
      Least(DialogClass(ms, ds, d))
    else d
  }

  ghost function FinalMessages(ms: map<Id, Match>, ds: map<Id, Dialog>, msgs: map<Id, Message>): map<Id, Message> {
    map i | i in msgs :: msgs[i].(dialogId := FinalDialog(ms, ds, msgs[i].dialogId))
  }

  // Message i is newer than message j: later creation time, then larger id.
  predicate Newer(msgs: map<Id, Message>, i: Id, j: Id)
    requires i in msgs && j in msgs
  {
    msgs[i].createdAt > msgs[j].createdAt || (msgs[i].createdAt == msgs[j].createdAt && i > j)
  }

  /** `last` names the newest message of dialog d, or is None when d has no message. */
  ghost predicate IsLatest(msgs: map<Id, Message>, d: Id, last: Option<Id>) {
    match last
    case None => forall i :: i in msgs ==> msgs[i].dialogId != d
    case Some(m) =>
      && m in msgs && msgs[m].dialogId == d
      && forall i :: i in msgs && msgs[i].dialogId == d && i != m ==> Newer(msgs, m, i)
  }

  // What consolidation writes into the surviving dialog of match k.
  function Consolidated(dialog: Dialog, k: Id, pair: (Id, Id), last: Option<Id>): Dialog {
    dialog.(matchId := k, user1 := pair.0, user2 := pair.1, isActive := true, lastMessage := last)
  }

  // Consolidation reaches the survivor d when its match or the dialog itself had a duplicate.
  ghost predicate Rewritten(ms: map<Id, Match>, ds: map<Id, Dialog>, d: Id)
    requires d in ds
  {
    && ds[d].matchId in ms
    && (MatchClass(ms, ds[d].matchId) != {ds[d].matchId} || DialogClass(ms, ds, d) != {d})
  }

  // The value of survivor d once the messages are `final`.
  ghost function FinalDialogValue(ms: map<Id, Match>, ds: map<Id, Dialog>, final: map<Id, Message>, d: Id): Dialog
    requires d in ds
  {
    if Rewritten(ms, ds, d) then
      Consolidated(ds[d], FinalMatch(ms, ds[d].matchId), PairOf(ms[ds[d].matchId]), Latest(final, d))
    else ds[d]
  }

  ghost function FinalDialogs(ms: map<Id, Match>, ds: map<Id, Dialog>, final: map<Id, Message>): map<Id, Dialog> {
    map d | d in ds && FinalDialog(ms, ds, d) == d :: FinalDialogValue(ms, ds, final, d)
  }

  /** The database an uninterrupted run of `apply` leaves behind. */
  ghost function Target(db: Database): Database {
    var final := FinalMessages(db.matches, db.dialogs, db.messages);
    Database(FinalLikes(db.likes), FinalMatches(db.matches), FinalDialogs(db.matches, db.dialogs, final), final)
  }

  ghost function Latest(msgs: map<Id, Message>, d: Id): (last: Option<Id>)
    ensures IsLatest(msgs, d, last)
  {
    LatestExists(msgs, d, msgs.Keys);
    var last :| IsLatestAmong(msgs, d, msgs.Keys, last);
    last
  }

  ghost predicate IsLatestAmong(msgs: map<Id, Message>, d: Id, ids: set<Id>, last: Option<Id>)
    requires ids <= msgs.Keys
  {
    match last
    case None => forall i :: i in ids ==> msgs[i].dialogId != d
    case Some(m) =>
      && m in ids && msgs[m].dialogId == d
      && forall i :: i in ids && msgs[i].dialogId == d && i != m ==> Newer(msgs, m, i)
  }

  lemma LatestExists(msgs: map<Id, Message>, d: Id, ids: set<Id>)
    requires ids <= msgs.Keys
    ensures exists last :: IsLatestAmong(msgs, d, ids, last)
  {
    if ids == {} {
      assert IsLatestAmong(msgs, d, ids, None);
    } else {
      var x :| x in ids;
      LatestExists(msgs, d, ids - {x});
      var last :| IsLatestAmong(msgs, d, ids - {x}, last);
      if msgs[x].dialogId == d && (last.None? || Newer(msgs, x, last.value)) {
        assert IsLatestAmong(msgs, d, ids, Some(x));
      } else {
        assert IsLatestAmong(msgs, d, ids, last);
      }
    }
  }

  lemma LatestIsUnique(msgs: map<Id, Message>, d: Id, a: Option<Id>, b: Option<Id>)
    requires IsLatest(msgs, d, a) && IsLatest(msgs, d, b)
    ensures a == b
  {
  }

  lemma FinalDialogIsLeast(ms: map<Id, Match>, ds: map<Id, Dialog>, d: Id)
    requires d in ds
    ensures FinalDialog(ms, ds, d) in DialogClass(ms, ds, d)
    ensures forall e :: e in DialogClass(ms, ds, d) ==>
              e in ds && FinalDialog(ms, ds, d) <= e && FinalDialog(ms, ds, e) == FinalDialog(ms, ds, d)
    ensures FinalDialog(ms, ds, FinalDialog(ms, ds, d)) == FinalDialog(ms, ds, d)
  {
    assert d in DialogClass(ms, ds, d);
    forall e | e in DialogClass(ms, ds, d)
      ensures e in ds && FinalDialog(ms, ds, e) == FinalDialog(ms, ds, d)
    {
      if ds[d].matchId in ms {
        FinalMatchIsLeast(ms, ds[d].matchId);
        if ds[e].matchId in ms {
          FinalMatchIsLeast(ms, ds[e].matchId);
        }
        assert DialogClass(ms, ds, e) == DialogClass(ms, ds, d);
      }
    }
  }
}
