// What the migration promises about every database.
module MigrationTheorems {
  import opened Documents
  import opened Ordering
  import opened MigrationSpec

  ghost predicate UniqueLikes(likes: map<Id, Like>) {
    forall i, j :: i in likes && j in likes && LikeKey(likes[i]) == LikeKey(likes[j]) ==> i == j
  }

  ghost predicate UniquePairs(ms: map<Id, Match>) {
    forall k, n :: k in ms && n in ms && PairOf(ms[k]) == PairOf(ms[n]) ==> k == n
  }

  ghost predicate UniqueDialogs(ds: map<Id, Dialog>) {
    forall d, e :: d in ds && e in ds && ds[d].matchId == ds[e].matchId ==> d == e
  }

  // Two dialogs may share a matchId only when no such match exists.
  ghost predicate UniqueDialogsOfMatches(ms: map<Id, Match>, ds: map<Id, Dialog>) {
    forall d, e :: d in ds && e in ds && ds[d].matchId == ds[e].matchId && ds[d].matchId in ms ==> d == e
  }

  ghost predicate Clean(db: Database) {
    UniqueLikes(db.likes) && UniquePairs(db.matches) && UniqueDialogsOfMatches(db.matches, db.dialogs)
  }

  /** No matchId without a match document is carried by two dialogs. */
  ghost predicate NoOrphanDuplicates(db: Database) {
    forall d, e | d in db.dialogs && e in db.dialogs && db.dialogs[d].matchId == db.dialogs[e].matchId ::
      db.dialogs[d].matchId !in db.matches ==> d == e
  }

  /******* A clean database is final *******/

  lemma UniquePairsAreFinal(ms: map<Id, Match>)
    requires UniquePairs(ms)
    ensures forall k :: k in ms ==> MatchClass(ms, k) == {k}
    ensures forall k :: FinalMatch(ms, k) == k
    ensures FinalMatches(ms) == ms
  {
    forall k | k in ms ensures MatchClass(ms, k) == {k} {
      assert k in MatchClass(ms, k);
    }
  }

  lemma UniqueDialogsAreFinal(ms: map<Id, Match>, ds: map<Id, Dialog>, msgs: map<Id, Message>)
    requires UniquePairs(ms) && UniqueDialogsOfMatches(ms, ds)
    ensures forall d :: d in ds ==> DialogClass(ms, ds, d) == {d}
    ensures forall d :: FinalDialog(ms, ds, d) == d
    ensures FinalMessages(ms, ds, msgs) == msgs
    ensures FinalDialogs(ms, ds, msgs) == ds
  {
    UniquePairsAreFinal(ms);
    forall d | d in ds ensures DialogClass(ms, ds, d) == {d} {
      assert d in DialogClass(ms, ds, d);
    }
    assert forall d :: d in ds ==> FinalDialogValue(ms, ds, msgs, d) == ds[d];
  }

  lemma CleanIsFinal(db: Database)
    requires Clean(db)
    ensures Target(db) == db
  {
    UniquePairsAreFinal(db.matches);
    UniqueDialogsAreFinal(db.matches, db.dialogs, db.messages);
    assert FinalLikes(db.likes) == db.likes;
  }

  /******* The final database is clean *******/

  lemma FinalLikesAreUnique(likes: map<Id, Like>)
    ensures UniqueLikes(FinalLikes(likes))
  {
  }

  lemma FinalMatchesAreUnique(ms: map<Id, Match>)
    ensures UniquePairs(FinalMatches(ms))
    ensures forall k :: k in FinalMatches(ms) ==> k in ms && PairOf(FinalMatches(ms)[k]) == PairOf(ms[k])
    ensures forall k :: k in ms ==> FinalMatch(ms, k) in FinalMatches(ms)
  {
    forall k | k in ms ensures FinalMatch(ms, k) in FinalMatches(ms) {
      FinalMatchIsLeast(ms, k);
    }
    FinalMatchesKeepPairs(ms);
    forall k, n | k in FinalMatches(ms) && n in FinalMatches(ms) && PairOf(ms[k]) == PairOf(ms[n]) ensures k == n {
      SameFinalMatch(ms, k, n);
    }
  }

  lemma FinalMatchesKeepPairs(ms: map<Id, Match>)
    ensures forall k :: k in FinalMatches(ms) ==> k in ms && PairOf(FinalMatches(ms)[k]) == PairOf(ms[k])
  {
  }

  // Where a final dialog lies: under the surviving match of its old match.
  lemma FinalDialogMatch(ms: map<Id, Match>, ds: map<Id, Dialog>, final: map<Id, Message>, d: Id)
    requires d in ds
    ensures FinalDialogValue(ms, ds, final, d).matchId == FinalMatch(ms, ds[d].matchId)
  {
    if ds[d].matchId in ms {
      FinalMatchIsLeast(ms, ds[d].matchId);
    }
  }

  lemma FinalDialogsAreUnique(ms: map<Id, Match>, ds: map<Id, Dialog>, final: map<Id, Message>)
    ensures UniqueDialogsOfMatches(FinalMatches(ms), FinalDialogs(ms, ds, final))
    ensures forall d :: d in ds ==> FinalDialog(ms, ds, d) in FinalDialogs(ms, ds, final)
  {
    var last := FinalDialogs(ms, ds, final);
    forall d | d in ds ensures FinalDialog(ms, ds, d) in last {
      FinalDialogIsLeast(ms, ds, d);
    }
    FinalMatchesAreUnique(ms);
    forall d, e | d in last && e in last && last[d].matchId == last[e].matchId && last[d].matchId in FinalMatches(ms)
      ensures d == e
    {
      FinalDialogMatch(ms, ds, final, d);
      FinalDialogMatch(ms, ds, final, e);
      assert e in DialogClass(ms, ds, d);
      FinalDialogIsLeast(ms, ds, d);
    }
  }

  lemma TargetIsClean(db: Database)
    ensures Clean(Target(db))
  {
    FinalLikesAreUnique(db.likes);
    FinalMatchesAreUnique(db.matches);
    FinalDialogsAreUnique(db.matches, db.dialogs, Target(db).messages);
  }

  /** A second run changes nothing. */
  lemma SecondRunChangesNothing(db: Database)
    ensures Target(Target(db)) == Target(db)
  {
    TargetIsClean(db);
    CleanIsFinal(Target(db));
  }

  /******* When the clean-up is incomplete *******/

  /** The final dialogs are unique by match exactly when no missing match had two of them at the start. */
  lemma IncompleteExactlyForOrphans(db: Database)
    ensures UniqueDialogs(Target(db).dialogs) <==> NoOrphanDuplicates(db)
  {
    var ms, ds, last := db.matches, db.dialogs, Target(db).dialogs;
    FinalDialogsAreUnique(ms, ds, Target(db).messages);
    FinalMatchesAreUnique(ms);
    forall d | d in ds && ds[d].matchId !in ms ensures d in last && last[d] == ds[d] {
      assert DialogClass(ms, ds, d) == {d};
    }
    forall d | d in last ensures last[d].matchId == FinalMatch(ms, ds[d].matchId) {
      FinalDialogMatch(ms, ds, Target(db).messages, d);
    }
    if NoOrphanDuplicates(db) {
      forall d, e | d in last && e in last && last[d].matchId == last[e].matchId ensures d == e {
        if last[d].matchId !in ms {
          OrphanMatchIsOwn(ms, ds[d].matchId);
          OrphanMatchIsOwn(ms, ds[e].matchId);
        } else {
          FinalOfExisting(ms, ds[d].matchId);
        }
      }
    }
  }

  lemma OrphanMatchIsOwn(ms: map<Id, Match>, k: Id)
    requires FinalMatch(ms, k) !in ms
    ensures k !in ms && FinalMatch(ms, k) == k
  {
    if k in ms {
      FinalMatchIsLeast(ms, k);
    }
  }

  lemma FinalOfExisting(ms: map<Id, Match>, k: Id)
    requires FinalMatch(ms, k) in ms
    ensures k in ms && FinalMatch(ms, k) in FinalMatches(ms)
  {
    FinalMatchesAreUnique(ms);
  }

  /******* Conservation *******/

  /** No message is lost, created or altered but in its dialog, and messages of one dialog stay together. */
  lemma MessagesConserved(db: Database)
    ensures Target(db).messages.Keys == db.messages.Keys
    ensures forall i :: i in db.messages ==>
              Target(db).messages[i] == db.messages[i].(dialogId := Target(db).messages[i].dialogId)
    ensures forall i, j :: i in db.messages && j in db.messages && db.messages[i].dialogId == db.messages[j].dialogId ==>
              Target(db).messages[i].dialogId == Target(db).messages[j].dialogId
  {
  }

  /** A message in a dialog of some match of a pair ends in an existing dialog of that pair's oldest match. */
  lemma MessagesFollowTheirPair(db: Database, i: Id)
    requires i in db.messages && db.messages[i].dialogId in db.dialogs
    requires db.dialogs[db.messages[i].dialogId].matchId in db.matches
    ensures var k := db.dialogs[db.messages[i].dialogId].matchId;
            var d := Target(db).messages[i].dialogId;
            && d in Target(db).dialogs
            && var n := Target(db).dialogs[d].matchId;
            && n in Target(db).matches && n in db.matches && PairOf(db.matches[n]) == PairOf(db.matches[k])
            && forall m :: m in db.matches && PairOf(db.matches[m]) == PairOf(db.matches[k]) ==> n <= m
  {
    var ms, ds := db.matches, db.dialogs;
    var d := db.messages[i].dialogId;
    var k := ds[d].matchId;
    FinalDialogsAreUnique(ms, ds, Target(db).messages);
    FinalMatchesAreUnique(ms);
    FinalDialogIsLeast(ms, ds, d);
    FinalDialogMatch(ms, ds, Target(db).messages, FinalDialog(ms, ds, d));
    FinalMatchIsLeast(ms, k);
    forall m | m in ms && PairOf(ms[m]) == PairOf(ms[k]) ensures FinalMatch(ms, k) <= m {
      assert m in MatchClass(ms, k);
    }
  }

  /**
   * A dialog that consolidation rewrote is active, lies under the oldest match of its pair, names that match's users in
   * ascending order and points at the newest of the messages it ends up with; any other is as before.
   */
  lemma RewrittenDialogIsUpToDate(db: Database, d: Id)
    requires d in Target(db).dialogs
    ensures d in db.dialogs
    ensures !Rewritten(db.matches, db.dialogs, d) ==> Target(db).dialogs[d] == db.dialogs[d]
    ensures Rewritten(db.matches, db.dialogs, d) ==>
              var final := Target(db).dialogs[d];
              && final.isActive && IsLatest(Target(db).messages, d, final.lastMessage)
              && (final.lastMessage.None? <==> forall i :: i in Target(db).messages ==> Target(db).messages[i].dialogId != d)
              && (final.lastMessage.Some? ==>
                    var msgs, m := Target(db).messages, final.lastMessage.value;
                    && m in msgs && msgs[m].dialogId == d
                    && forall i :: i in msgs && msgs[i].dialogId == d && i != m ==>
                         msgs[i].createdAt < msgs[m].createdAt || (msgs[i].createdAt == msgs[m].createdAt && i < m))
              && final.matchId in Target(db).matches
              && (final.user1, final.user2) == PairOf(Target(db).matches[final.matchId])
              && PairOf(Target(db).matches[final.matchId]) == PairOf(db.matches[db.dialogs[d].matchId])
  {
    if Rewritten(db.matches, db.dialogs, d) {
      FinalMatchOfPair(db.matches, db.dialogs[d].matchId);
    }
  }

  /** Consolidation rewrites the dialogs whose pair had a second match or a second dialog. */
  lemma RewrittenIffDuplicated(db: Database, d: Id)
    requires d in db.dialogs
    ensures Rewritten(db.matches, db.dialogs, d) <==>
            && db.dialogs[d].matchId in db.matches
            && ((exists n :: n in db.matches && n != db.dialogs[d].matchId
                             && PairOf(db.matches[n]) == PairOf(db.matches[db.dialogs[d].matchId]))
                || (exists e :: e in db.dialogs && e != d && db.dialogs[e].matchId in db.matches
                                && PairOf(db.matches[db.dialogs[e].matchId]) == PairOf(db.matches[db.dialogs[d].matchId])))
  {
    var ms, ds := db.matches, db.dialogs;
    if ds[d].matchId in ms {
      var k := ds[d].matchId;
      assert k in MatchClass(ms, k) && d in DialogClass(ms, ds, d);
      DialogClassIsPair(db, d);
      if MatchClass(ms, k) == {k} {
        assert forall n :: n in ms && PairOf(ms[n]) == PairOf(ms[k]) ==> n in MatchClass(ms, k);
      } else {
        var n :| n in MatchClass(ms, k) && n != k;
      }
      if DialogClass(ms, ds, d) != {d} {
        var e :| e in DialogClass(ms, ds, d) && e != d;
      }
    }
  }

  lemma DialogClassIsPair(db: Database, d: Id)
    requires d in db.dialogs && db.dialogs[d].matchId in db.matches
    ensures forall e :: e in DialogClass(db.matches, db.dialogs, d) <==>
              && e in db.dialogs && db.dialogs[e].matchId in db.matches
              && PairOf(db.matches[db.dialogs[e].matchId]) == PairOf(db.matches[db.dialogs[d].matchId])
  {
    FinalMatchIsLeast(db.matches, db.dialogs[d].matchId);
    forall e | e in db.dialogs && db.dialogs[e].matchId in db.matches
      ensures e in DialogClass(db.matches, db.dialogs, d) <==>
              PairOf(db.matches[db.dialogs[e].matchId]) == PairOf(db.matches[db.dialogs[d].matchId])
    {
      SameFinalMatch(db.matches, db.dialogs[d].matchId, db.dialogs[e].matchId);
    }
  }

  /** Each matched pair keeps its oldest dialog, and no other; dialogs of missing matches all stay. */
  lemma OldestDialogSurvives(db: Database, d: Id)
    ensures d in Target(db).dialogs <==>
            && d in db.dialogs
            && (db.dialogs[d].matchId in db.matches ==>
                  forall e | e in db.dialogs && db.dialogs[e].matchId in db.matches
                             && PairOf(db.matches[db.dialogs[e].matchId]) == PairOf(db.matches[db.dialogs[d].matchId]) :: d <= e)
  {
    if d in db.dialogs {
      FinalDialogIsLeast(db.matches, db.dialogs, d);
      if db.dialogs[d].matchId in db.matches {
        DialogClassIsPair(db, d);
      }
      assert d in Target(db).dialogs <==> FinalDialog(db.matches, db.dialogs, d) == d;
    }
  }

  /** Each liked direction keeps its oldest like, and no other. */
  lemma OldestLikeSurvives(db: Database, i: Id)
    ensures i in Target(db).likes <==>
            i in db.likes && forall j | j in db.likes && db.likes[j].userId == db.likes[i].userId
                                        && db.likes[j].likedUserId == db.likes[i].likedUserId :: i <= j
    ensures i in Target(db).likes ==> Target(db).likes[i] == db.likes[i]
  {
    assert i in FinalLikes(db.likes) <==> FirstLike(db.likes, i);
  }

  /** Each matched pair keeps its oldest match, and no other. */
  lemma OldestMatchSurvives(db: Database, k: Id)
    ensures k in Target(db).matches <==>
            k in db.matches && forall n :: n in db.matches && PairOf(db.matches[n]) == PairOf(db.matches[k]) ==> k <= n
    ensures k in Target(db).matches ==> PairOf(Target(db).matches[k]) == PairOf(db.matches[k])
  {
    FinalMatchesKeepPairs(db.matches);
    if k in db.matches {
      var n: Id := FinalMatch(db.matches, k);
      FinalMatchIsLeast(db.matches, k);
      assert n in db.matches && PairOf(db.matches[n]) == PairOf(db.matches[k]) && n <= k;
      forall m | m in db.matches && PairOf(db.matches[m]) == PairOf(db.matches[k]) ensures n <= m {
        assert m in MatchClass(db.matches, k);
      }
    }
  }

  /** Only matches that had a duplicate are turned round: a lone match keeps its order of users. */
  lemma LoneMatchUntouched(db: Database, k: Id)
    requires k in db.matches
    ensures (forall n :: n in db.matches && PairOf(db.matches[n]) == PairOf(db.matches[k]) ==> n == k) ==>
              k in Target(db).matches && Target(db).matches[k] == db.matches[k]
    ensures k in Target(db).matches && (exists n :: n in db.matches && n != k && PairOf(db.matches[n]) == PairOf(db.matches[k])) ==>
              (Target(db).matches[k].user1, Target(db).matches[k].user2) == PairOf(db.matches[k])
  {
    if n :| n in db.matches && n != k && PairOf(db.matches[n]) == PairOf(db.matches[k]) {
      assert n in MatchClass(db.matches, k);
    } else {
      assert k in MatchClass(db.matches, k);
      assert MatchClass(db.matches, k) == {k};
    }
  }

  lemma FinalValueKeepsPair(ms: map<Id, Match>, ds: map<Id, Dialog>, final: map<Id, Message>, d: Id)
    requires d in ds && ds[d].matchId in ms
    requires CanonicalPair(ds[d].user1, ds[d].user2) == PairOf(ms[ds[d].matchId])
    ensures var value := FinalDialogValue(ms, ds, final, d);
            CanonicalPair(value.user1, value.user2) == PairOf(ms[ds[d].matchId])
  {
  }

  // The pair of a dialog's old match is the pair of its final match and of the final dialog.
  lemma FinalDialogKeepsPair(db: Database, d: Id)
    requires WellFormed(db) && d in Target(db).dialogs
    ensures var final := Target(db).dialogs[d];
            && d in db.dialogs && final.matchId in Target(db).matches
            && CanonicalPair(final.user1, final.user2) == PairOf(db.matches[db.dialogs[d].matchId])
            && PairOf(Target(db).matches[final.matchId]) == PairOf(db.matches[db.dialogs[d].matchId])
  {
    var ms, ds, final := db.matches, db.dialogs, Target(db).messages;
    assert Target(db).dialogs[d] == FinalDialogValue(ms, ds, final, d);
    assert ds[d].matchId in ms && CanonicalPair(ds[d].user1, ds[d].user2) == PairOf(ms[ds[d].matchId]);
    FinalValueKeepsPair(ms, ds, final, d);
    FinalDialogMatch(ms, ds, final, d);
    FinalMatchOfPair(ms, ds[d].matchId);
  }

  lemma FinalMatchOfPair(ms: map<Id, Match>, k: Id)
    requires k in ms
    ensures FinalMatch(ms, k) in FinalMatches(ms) && PairOf(FinalMatches(ms)[FinalMatch(ms, k)]) == PairOf(ms[k])
  {
    FinalMatchIsLeast(ms, k);
    FinalMatchesAreUnique(ms);
  }

  lemma FinalSenderParticipates(db: Database, i: Id)
    requires WellFormed(db) && i in db.messages
    ensures var d := Target(db).messages[i].dialogId;
            && d in Target(db).dialogs
            && db.messages[i].sender in {Target(db).dialogs[d].user1, Target(db).dialogs[d].user2}
  {
    var before := db.messages[i].dialogId;
    var d := FinalDialog(db.matches, db.dialogs, before);
    FinalDialogsAreUnique(db.matches, db.dialogs, Target(db).messages);
    FinalDialogIsLeast(db.matches, db.dialogs, before);
    SameFinalMatch(db.matches, db.dialogs[d].matchId, db.dialogs[before].matchId);
    FinalDialogKeepsPair(db, d);
    SamePairSameUsers(Target(db).dialogs[d].user1, Target(db).dialogs[d].user2,
                      db.dialogs[before].user1, db.dialogs[before].user2);
    assert db.messages[i].sender in {db.dialogs[before].user1, db.dialogs[before].user2};
  }

  /** The migration keeps the invariants that chats rely on. */
  lemma MigrationKeepsWellFormed(db: Database)
    requires WellFormed(db)
    ensures WellFormed(Target(db))
  {
    forall d | d in Target(db).dialogs
      ensures Target(db).dialogs[d].matchId in Target(db).matches
      ensures CanonicalPair(Target(db).dialogs[d].user1, Target(db).dialogs[d].user2) ==
              PairOf(Target(db).matches[Target(db).dialogs[d].matchId])
    {
      FinalDialogKeepsPair(db, d);
    }
    forall i | i in db.messages
      ensures var d := Target(db).messages[i].dialogId;
              && d in Target(db).dialogs
              && db.messages[i].sender in {Target(db).dialogs[d].user1, Target(db).dialogs[d].user2}
    {
      FinalSenderParticipates(db, i);
    }
    MessagesConserved(db);
  }

  lemma SamePairSameUsers(a: Id, b: Id, c: Id, d: Id)
    requires CanonicalPair(a, b) == CanonicalPair(c, d)
    ensures {a, b} == {c, d}
  {
  }

  /******* Crashes *******/

  // Which document, if any, a crash after a write leaves with stale fields.
  datatype Window = Safe | StaleDialog(d: Id) | StaleMatch(k: Id)

  datatype CrashPoint = CrashPoint(state: Database, window: Window)

  /** A run from the logged state ends like an uninterrupted run from `start`, up to the stale document. */
  ghost predicate Resumable(start: Database, e: CrashPoint) {
    && (ReferencesClosed(start) ==> ReferencesClosed(e.state))
    && match e.window
       case Safe => Target(e.state) == Target(start)
       case StaleDialog(d) =>
         && d in Target(start).dialogs && d in e.state.dialogs
         && Target(e.state) == Target(start).(dialogs := Target(start).dialogs[d := e.state.dialogs[d]])
         && e.state.dialogs[d].matchId in e.state.matches
         && Target(start).dialogs[d] == Refreshed(e.state, d)
       case StaleMatch(k) =>
         && k in Target(start).matches && k in e.state.matches
         && Target(e.state) == Target(start).(matches := Target(start).matches[k := e.state.matches[k]])
         && Target(start).matches[k] == Canonical(e.state.matches[k])
  }

  // A match with its users in ascending order.
  function Canonical(m: Match): (r: Match)
    ensures PairOf(r) == PairOf(m)
  {
    Match(PairOf(m).0, PairOf(m).1)
  }

  // Dialog d with the fields that consolidation would write.
  ghost function Refreshed(db: Database, d: Id): Dialog
    requires d in db.dialogs && db.dialogs[d].matchId in db.matches
  {
    var dialog := db.dialogs[d];
    Consolidated(dialog, dialog.matchId, PairOf(db.matches[dialog.matchId]), Latest(db.messages, d))
  }

  /** Same documents, same matched pairs, same match of each dialog and same dialog of each message. */
  ghost predicate SameSkeleton(a: Database, b: Database) {
    && a.likes == b.likes
    && a.matches.Keys == b.matches.Keys
    && (forall k :: k in a.matches ==> PairOf(a.matches[k]) == PairOf(b.matches[k]))
    && a.dialogs.Keys == b.dialogs.Keys
    && (forall d :: d in a.dialogs ==> a.dialogs[d].matchId == b.dialogs[d].matchId)
    && a.messages == b.messages
  }

  lemma ResumeKeepsSkeleton(start: Database, e: CrashPoint)
    requires Resumable(start, e)
    ensures SameSkeleton(Target(e.state), Target(start))
  {
  }

  /**
   * A crash loses fields only in the two windows, and exactly when the document left behind is out of date:
   * a dialog that is inactive, names its users in another order or does not point at its newest message,
   * a match whose users are in descending order.
   */
  lemma ResumeIsExact(start: Database, e: CrashPoint)
    requires Resumable(start, e)
    ensures Target(e.state) == Target(start) <==>
            match e.window
            case Safe => true
            case StaleDialog(d) =>
              var dialog := e.state.dialogs[d];
              && dialog.isActive
              && (dialog.user1, dialog.user2) == PairOf(e.state.matches[dialog.matchId])
              && IsLatest(e.state.messages, d, dialog.lastMessage)
            case StaleMatch(k) => e.state.matches[k].user1 <= e.state.matches[k].user2
  {
    hide Target;
    match e.window
    case Safe =>
    case StaleDialog(d) =>
      var dialog := e.state.dialogs[d];
      UpdateIsIdentity(Target(start).dialogs, d, dialog);
      if IsLatest(e.state.messages, d, dialog.lastMessage) {
        LatestIsUnique(e.state.messages, d, dialog.lastMessage, Latest(e.state.messages, d));
      }
    case StaleMatch(k) =>
      UpdateIsIdentity(Target(start).matches, k, e.state.matches[k]);
  }

  lemma UpdateIsIdentity<T>(m: map<Id, T>, k: Id, v: T)
    requires k in m
    ensures m[k := v] == m <==> m[k] == v
  {
    assert m[k := v][k] == v;
  }

  // Each state is one that can be resumed for the one before it, as all those in the log of a run are.
  ghost predicate CrashedRuns(states: seq<Database>) {
    forall i :: 0 < i < |states| ==> LoggedFrom(states[i - 1], states[i])
  }

  ghost predicate LoggedFrom(start: Database, state: Database) {
    exists e :: Resumable(start, e) && e.state == state
  }

  /** However often the migration dies and is started again, the last run ends where the first would have. */
  lemma {:induction false} RepeatedCrashes(states: seq<Database>, n: nat)
    requires n < |states| && CrashedRuns(states)
    ensures SameSkeleton(Target(states[n]), Target(states[0]))
    ensures ReferencesClosed(states[0]) ==> ReferencesClosed(states[n])
  {
    if n > 0 {
      RepeatedCrashes(states, n - 1);
      assert LoggedFrom(states[n - 1], states[n]);
      var e :| Resumable(states[n - 1], e) && e.state == states[n];
      ResumeKeepsSkeleton(states[n - 1], e);
      SkeletonTransitive(Target(states[n]), Target(states[n - 1]), Target(states[0]));
    }
  }

  lemma SkeletonTransitive(a: Database, b: Database, c: Database)
    requires SameSkeleton(a, b) && SameSkeleton(b, c)
    ensures SameSkeleton(a, c)
  {
  }
}
