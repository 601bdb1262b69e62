// The writes of a migration, the order they come in, and what a crash after each of them leaves.
module MigrationLog {
  import opened Documents
  import opened Ordering
  import opened MigrationSpec
  import opened MigrationSteps
  import opened MigrationTheorems

  datatype Write =
    | DeleteLikes(ids: set<Id>)
    | MoveMessages(from: set<Id>, to: Id)
    | DeleteDialogs(ids: set<Id>, survivor: Id)
    | UpdateDialog(id: Id, dialog: Dialog)
    | DeleteMatches(ids: set<Id>, survivor: Id)
    | UpdateMatch(id: Id, pair: Match)

  datatype LogEntry = LogEntry(write: Write, state: Database)

  ghost function Written(db: Database, w: Write): Database {
    match w
    case DeleteLikes(ids) => db.(likes := db.likes - ids)
    case MoveMessages(from, to) => db.(messages := Repointed(db.messages, from, to))
    case DeleteDialogs(ids, _) => db.(dialogs := db.dialogs - ids)
    case UpdateDialog(d, dialog) => db.(dialogs := db.dialogs[d := dialog])
    case DeleteMatches(ids, _) => db.(matches := db.matches - ids)
    case UpdateMatch(k, m) => db.(matches := db.matches[k := m])
  }

  // No consolidation and no merge is half done.
  predicate Resting(last: Option<Write>) {
    last.Some? ==> !last.value.MoveMessages? && !last.value.DeleteDialogs? && !last.value.DeleteMatches?
  }

  ghost predicate LoneMatch(ms: map<Id, Match>, k: Id) {
    k in ms && MatchClass(ms, k) == {k}
  }

  // The other dialogs of the class whose oldest is s, at least one.
  ghost predicate IsDuplicates(db: Database, ids: set<Id>, s: Id) {
    && s in db.dialogs && db.dialogs[s].matchId in db.matches && FinalDialog(db.matches, db.dialogs, s) == s
    && ids == DialogClass(db.matches, db.dialogs, s) - {s} && ids != {}
  }

  // No dialog of match k is left to consolidate.
  ghost predicate Settled(db: Database, k: Id) {
    DialogsSettled(db.matches, db.dialogs, Target(db).messages, k)
  }

  /**
   * The write is one that the command issues in this state after the write `last`. Duplicate dialogs are emptied, then
   * deleted, then their survivor is updated; duplicate matches are deleted, then theirs is updated.
   */
  ghost predicate Due(last: Option<Write>, db: Database, w: Write) {
    match w
    case DeleteLikes(ids) =>
      Resting(last) && ids != {} && exists i :: FirstLike(db.likes, i) && ids == OtherLikes(db.likes, i)
    case MoveMessages(from, to) =>
      Resting(last) && IsDuplicates(db, from, to)
    case DeleteDialogs(ids, s) =>
      last == Some(MoveMessages(ids, s)) && IsDuplicates(db, ids, s)
      && forall i :: i in db.messages ==> db.messages[i].dialogId !in ids
    case UpdateDialog(d, dialog) =>
      && d in db.dialogs && db.dialogs[d].matchId in db.matches && DialogClass(db.matches, db.dialogs, d) == {d}
      && (if Resting(last) then !LoneMatch(db.matches, db.dialogs[d].matchId)
          else last.value.DeleteDialogs? && last.value.survivor == d)
      && dialog == Consolidated(db.dialogs[d], FinalMatch(db.matches, db.dialogs[d].matchId),
                                PairOf(db.matches[db.dialogs[d].matchId]), Latest(db.messages, d))
    case DeleteMatches(ids, k) =>
      && Resting(last) && k in db.matches && FinalMatch(db.matches, k) == k && ids == MatchClass(db.matches, k) - {k} && ids != {}
      && Settled(db, k)
    case UpdateMatch(k, m) =>
      last.Some? && last.value.DeleteMatches? && last.value.survivor == k
      && LoneMatch(db.matches, k) && m == Canonical(db.matches[k])
  }

  ghost function OtherLikes(likes: map<Id, Like>, i: Id): set<Id>
    requires i in likes
  {
    set j | j in likes && j != i && LikeKey(likes[j]) == LikeKey(likes[i])
  }

  /** The two windows: a lone match's duplicate dialogs deleted, and duplicate matches deleted. */
  ghost function WindowOf(db: Database, w: Write): Window {
    match w
    case DeleteDialogs(_, s) => if s in db.dialogs && LoneMatch(db.matches, db.dialogs[s].matchId) then StaleDialog(s) else Safe
    case DeleteMatches(_, k) => StaleMatch(k)
    case _ => Safe
  }

  // The state that the writes in the log have led to.
  ghost function Newest(start: Database, log: seq<LogEntry>): Database {
    if log == [] then start else log[|log| - 1].state
  }

  ghost function LastWrite(log: seq<LogEntry>): Option<Write> {
    if log == [] then None else Some(log[|log| - 1].write)
  }

  ghost predicate Entered(start: Database, log: seq<LogEntry>, e: LogEntry) {
    Due(LastWrite(log), Newest(start, log), e.write) && e.state == Written(Newest(start, log), e.write)
  }

  /** The log goes write by write, each due after the one before in the state that one left. */
  ghost predicate IsLog(start: Database, log: seq<LogEntry>) {
    forall n :: 0 <= n < |log| ==> Entered(start, log[..n], log[n])
  }

  lemma LogGrows(start: Database, log: seq<LogEntry>, w: Write)
    requires IsLog(start, log) && Due(LastWrite(log), Newest(start, log), w)
    ensures var longer := log + [LogEntry(w, Written(Newest(start, log), w))];
            IsLog(start, longer) && LastWrite(longer) == Some(w) && Newest(start, longer) == Written(Newest(start, log), w)
  {
    hide Due, Written;
    var longer := log + [LogEntry(w, Written(Newest(start, log), w))];
    forall n | 0 <= n < |longer| ensures Entered(start, longer[..n], longer[n]) {
      if n < |log| {
        assert longer[n] == log[n] && longer[..n] == log[..n];
      } else {
        assert longer[..n] == log;
      }
    }
  }

  /******* Every due write can be resumed *******/

  // The crash point after the last write of a log.
  ghost function PointOf(start: Database, log: seq<LogEntry>): CrashPoint {
    if log == [] then CrashPoint(start, Safe)
    else
      var n := |log| - 1;
      CrashPoint(log[n].state, WindowOf(Newest(start, log[..n]), log[n].write))
  }

  // What the last write says of the window that is open.
  ghost predicate Fits(last: Option<Write>, c: CrashPoint) {
    match last
    case Some(DeleteDialogs(_, s)) =>
      && s in c.state.dialogs
      && c.window == if LoneMatch(c.state.matches, c.state.dialogs[s].matchId) then StaleDialog(s) else Safe
    case Some(DeleteMatches(_, k)) => c.window == StaleMatch(k)
    case _ => c.window == Safe
  }

  lemma PointFits(start: Database, log: seq<LogEntry>)
    requires IsLog(start, log)
    ensures Fits(LastWrite(log), PointOf(start, log)) && PointOf(start, log).state == Newest(start, log)
  {
    if log != [] {
      var n := |log| - 1;
      assert Entered(start, log[..n], log[n]);
      hide MatchClass, DialogClass, FinalDialog, FinalMatch, Settled, Latest;
    }
  }

  /** After every write of every log the run can be resumed. */
  lemma {:induction false} LogIsResumable(start: Database, log: seq<LogEntry>)
    requires IsLog(start, log)
    ensures Resumable(start, PointOf(start, log))
    decreases |log|
  {
    hide Target, Resumable, Due, Fits;
    if log == [] {
      RunStarts(start);
    } else {
      var n := |log| - 1;
      var before := log[..n];
      assert Entered(start, before, log[n]);
      forall m | 0 <= m < n ensures Entered(start, before[..m], before[m]) {
        assert before[..m] == log[..m] && before[m] == log[m];
      }
      LogIsResumable(start, before);
      PointFits(start, before);
      DueKeepsResumable(start, LastWrite(before), PointOf(start, before), log[n].write);
    }
  }

  lemma RunStarts(start: Database)
    ensures Resumable(start, CrashPoint(start, Safe))
  {
  }

  lemma DueKeepsResumable(start: Database, last: Option<Write>, c: CrashPoint, w: Write)
    requires Resumable(start, c) && Fits(last, c) && Due(last, c.state, w)
    ensures Resumable(start, CrashPoint(Written(c.state, w), WindowOf(c.state, w)))
  {
    hide Target, Resumable, MatchClass, DialogClass, FinalDialog, FinalMatch, Settled;
    var db := c.state;
    match w
    case DeleteLikes(ids) =>
      var i :| FirstLike(db.likes, i) && ids == OtherLikes(db.likes, i);
      LikesResume(start, db, i, ids);
    case MoveMessages(from, to) => MovesResume(start, db, from, to);
    case DeleteDialogs(ids, s) => DialogDeletesResume(start, db, ids, s);
    case UpdateDialog(d, dialog) =>
      if c.window == Safe {
        UpdateResumes(start, db, d, dialog);
      } else {
        UpdateRestores(start, db, d, dialog);
      }
    case DeleteMatches(ids, k) => MatchDeleteStep(start, db, k, ids);
    case UpdateMatch(k, m) => UpdateOfMatchRestores(start, db, k, m);
  }

  lemma LikesResume(start: Database, db: Database, i: Id, ids: set<Id>)
    requires Resumable(start, CrashPoint(db, Safe)) && FirstLike(db.likes, i) && ids == OtherLikes(db.likes, i)
    ensures Resumable(start, CrashPoint(db.(likes := db.likes - ids), Safe))
  {
    hide Target;
    LikesDeletedTarget(db, ids);
  }

  lemma LikesDeletedTarget(db: Database, gone: set<Id>)
    requires forall i :: i in gone ==> !FirstLike(db.likes, i)
    ensures Target(db.(likes := db.likes - gone)) == Target(db)
  {
    LikesDeleted(db.likes, gone);
  }

  lemma MovesResume(start: Database, db: Database, from: set<Id>, to: Id)
    requires Resumable(start, CrashPoint(db, Safe)) && IsDuplicates(db, from, to)
    ensures Resumable(start, CrashPoint(db.(messages := Repointed(db.messages, from, to)), Safe))
  {
    hide Target, ReferencesClosed, DialogClass, FinalDialog;
    MessagesRepointed(db, from, to);
  }

  lemma DialogDeletesResume(start: Database, db: Database, ids: set<Id>, s: Id)
    requires Resumable(start, CrashPoint(db, Safe)) && IsDuplicates(db, ids, s)
    requires forall i :: i in db.messages ==> db.messages[i].dialogId !in ids
    ensures Resumable(start, CrashPoint(db.(dialogs := db.dialogs - ids), WindowOf(db, DeleteDialogs(ids, s))))
  {
    hide Target, Resumable, DialogClass, FinalDialog;
    var k := FinalMatch(db.matches, db.dialogs[s].matchId);
    FinalMatchIsLeast(db.matches, db.dialogs[s].matchId);
    hide FinalMatch, MatchClass;
    FinalMatchOf(db, s, k);
    DeleteStep(start, db, s, k, ids);
  }

  lemma FinalMatchOf(db: Database, s: Id, k: Id)
    requires s in db.dialogs && FinalMatch(db.matches, db.dialogs[s].matchId) == k && k in db.matches
    ensures db.dialogs[s].matchId in db.matches
    ensures PairOf(db.matches[db.dialogs[s].matchId]) == PairOf(db.matches[k])
    ensures MatchClass(db.matches, k) == MatchClass(db.matches, db.dialogs[s].matchId)
    ensures MatchClass(db.matches, k) == {k} ==> db.dialogs[s].matchId == k
    ensures MatchClass(db.matches, k) == {k} <==>
            MatchClass(db.matches, db.dialogs[s].matchId) == {db.dialogs[s].matchId}
  {
    FinalMatchIsLeast(db.matches, db.dialogs[s].matchId);
    assert db.dialogs[s].matchId in MatchClass(db.matches, k);
    assert k in MatchClass(db.matches, k);
  }

  ghost function ConsolidatedAt(db: Database, s: Id, k: Id, last: Option<Id>): Dialog
    requires s in db.dialogs && k in db.matches
  {
    Consolidated(db.dialogs[s], k, PairOf(db.matches[k]), last)
  }

  lemma DeleteStep(start: Database, moved: Database, s: Id, k: Id, gone: set<Id>)
    requires Resumable(start, CrashPoint(moved, Safe))
    requires s in moved.dialogs && FinalMatch(moved.matches, moved.dialogs[s].matchId) == k && k in moved.matches
    requires FinalDialog(moved.matches, moved.dialogs, s) == s
    requires gone == DialogClass(moved.matches, moved.dialogs, s) - {s} && gone != {}
    requires forall i :: i in moved.messages ==> moved.messages[i].dialogId !in gone
    ensures Resumable(start, CrashPoint(moved.(dialogs := moved.dialogs - gone),
                                        if MatchClass(moved.matches, k) == {k} then StaleDialog(s) else Safe))
  {
    FinalMatchOf(moved, s, k);
    DialogsDeleted(moved, s, gone);
    FinalDialogMatch(moved.matches, moved.dialogs, Target(moved).messages, s);
    FinalValueAfterDelete(moved, s, k, gone, Latest(moved.messages, s));
  }

  lemma FinalValueAfterDelete(moved: Database, s: Id, k: Id, gone: set<Id>, last: Option<Id>)
    requires s in moved.dialogs && FinalMatch(moved.matches, moved.dialogs[s].matchId) == k && k in moved.matches
    requires FinalDialog(moved.matches, moved.dialogs, s) == s
    requires gone == DialogClass(moved.matches, moved.dialogs, s) - {s} && gone != {}
    requires forall i :: i in moved.messages ==> moved.messages[i].dialogId !in gone
    requires IsLatest(moved.messages, s, last)
    ensures Target(moved).dialogs[s] == ConsolidatedAt(moved, s, k, last)
  {
    FinalMatchOf(moved, s, k);
    DialogClassesAfterDelete(moved.matches, moved.dialogs, s, gone);
    SameFinalMessages(moved.matches, moved.dialogs, moved.matches, moved.dialogs - gone, moved.messages);
    LatestIsFinal(moved.matches, moved.dialogs - gone, moved.messages, s, last);
    assert Rewritten(moved.matches, moved.dialogs, s) by {
      assert DialogClass(moved.matches, moved.dialogs, s) != {s};
    }
  }

  lemma RestoreAt(a: map<Id, Dialog>, b: map<Id, Dialog>, s: Id, v: Dialog)
    requires s in a
    ensures b == a[s := v] || b == a ==> b[s := a[s]] == a
  {
  }

  // The survivor was still to be rewritten: writing it changes nothing in the target.
  lemma UpdateResumes(start: Database, db: Database, d: Id, dialog: Dialog)
    requires Resumable(start, CrashPoint(db, Safe))
    requires d in db.dialogs && db.dialogs[d].matchId in db.matches && DialogClass(db.matches, db.dialogs, d) == {d}
    requires !LoneMatch(db.matches, db.dialogs[d].matchId)
    requires dialog == Consolidated(db.dialogs[d], FinalMatch(db.matches, db.dialogs[d].matchId),
                                    PairOf(db.matches[db.dialogs[d].matchId]), Latest(db.messages, d))
    ensures Resumable(start, CrashPoint(db.(dialogs := db.dialogs[d := dialog]), Safe))
  {
    hide Target, MatchClass, DialogClass, FinalMatch, Latest;
    SurvivorUpdated(db, d, Latest(db.messages, d), dialog);
  }

  // The survivor of a lone match was out of date: writing it restores the target.
  lemma UpdateRestores(start: Database, db: Database, d: Id, dialog: Dialog)
    requires Resumable(start, CrashPoint(db, StaleDialog(d)))
    requires d in db.dialogs && db.dialogs[d].matchId in db.matches && DialogClass(db.matches, db.dialogs, d) == {d}
    requires LoneMatch(db.matches, db.dialogs[d].matchId)
    requires dialog == Consolidated(db.dialogs[d], FinalMatch(db.matches, db.dialogs[d].matchId),
                                    PairOf(db.matches[db.dialogs[d].matchId]), Latest(db.messages, d))
    ensures Resumable(start, CrashPoint(db.(dialogs := db.dialogs[d := dialog]), Safe))
  {
    hide Target, DialogClass, Latest;
    FinalMatchIsLeast(db.matches, db.dialogs[d].matchId);
    SurvivorUpdated(db, d, Latest(db.messages, d), dialog);
    hide MatchClass, FinalMatch;
    RestoreAt(Target(start).dialogs, Target(db).dialogs, d, db.dialogs[d]);
  }

  lemma MatchDeleteStep(start: Database, db: Database, k: Id, gone: set<Id>)
    requires Resumable(start, CrashPoint(db, Safe)) && Settled(db, k)
    requires k in db.matches && FinalMatch(db.matches, k) == k && gone == MatchClass(db.matches, k) - {k} && gone != {}
    ensures Resumable(start, CrashPoint(db.(matches := db.matches - gone), StaleMatch(k)))
    ensures k in db.matches - gone && (db.matches - gone)[k] == db.matches[k] && MatchClass(db.matches - gone, k) == {k}
    ensures Target(start).matches[k] == Canonical(db.matches[k])
  {
    hide Target;
    var cleared := db.(matches := db.matches - gone);
    MatchClassesAfterDelete(db.matches, k, gone);
    assert cleared.matches[k] == db.matches[k];
    TargetOfMatch(db, k);
    MatchesDeletedTarget(db, k, gone);
  }

  lemma MatchesDeletedTarget(db: Database, k: Id, gone: set<Id>)
    requires Settled(db, k)
    requires k in db.matches && FinalMatch(db.matches, k) == k && gone == MatchClass(db.matches, k) - {k} && gone != {}
    ensures k in Target(db).matches
    ensures Target(db.(matches := db.matches - gone)) == Target(db).(matches := Target(db).matches[k := db.matches[k]])
    ensures ReferencesClosed(db) ==> ReferencesClosed(db.(matches := db.matches - gone))
  {
    MatchesDeleted(db, k, gone);
  }

  lemma TargetOfMatch(db: Database, k: Id)
    requires k in db.matches && FinalMatch(db.matches, k) == k && MatchClass(db.matches, k) - {k} != {}
    ensures k in Target(db).matches
    ensures Target(db).matches[k] == Match(PairOf(db.matches[k]).0, PairOf(db.matches[k]).1)
  {
    DuplicatedMatchValue(db.matches, k);
  }

  lemma DuplicatedMatchValue(ms: map<Id, Match>, k: Id)
    requires k in ms && FinalMatch(ms, k) == k && MatchClass(ms, k) - {k} != {}
    ensures k in FinalMatches(ms) && FinalMatches(ms)[k] == Match(PairOf(ms[k]).0, PairOf(ms[k]).1)
  {
    assert MatchClass(ms, k) != {k};
  }

  lemma UpdateOfMatchRestores(start: Database, db: Database, k: Id, value: Match)
    requires Resumable(start, CrashPoint(db, StaleMatch(k)))
    requires LoneMatch(db.matches, k) && value == Canonical(db.matches[k])
    ensures Resumable(start, CrashPoint(db.(matches := db.matches[k := value]), Safe))
  {
    MatchUpdateStep(start, db, k, value);
  }

  lemma MatchUpdateStep(start: Database, db: Database, k: Id, value: Match)
    requires Resumable(start, CrashPoint(db, StaleMatch(k)))
    requires MatchClass(db.matches, k) == {k} && PairOf(value) == PairOf(db.matches[k])
    requires Target(start).matches[k] == value
    ensures Resumable(start, CrashPoint(db.(matches := db.matches[k := value]), Safe))
  {
    MatchUpdated(db, k, value);
    RestoreMatchAt(Target(start).matches, Target(db).matches, k, db.matches[k]);
  }

  lemma RestoreMatchAt(a: map<Id, Match>, b: map<Id, Match>, k: Id, v: Match)
    requires k in a && b == a[k := v]
    ensures b[k := a[k]] == a
  {
  }

  /******* What a crash costs *******/

  // The dialog is what consolidation would make of it.
  ghost predicate UpToDate(db: Database, d: Id)
    requires d in db.dialogs && db.dialogs[d].matchId in db.matches
  {
    var dialog := db.dialogs[d];
    && dialog.isActive && (dialog.user1, dialog.user2) == PairOf(db.matches[dialog.matchId])
    && IsLatest(db.messages, d, dialog.lastMessage)
  }

  lemma PrefixIsResumable(start: Database, log: seq<LogEntry>, n: nat)
    requires IsLog(start, log) && n < |log|
    ensures Resumable(start, CrashPoint(log[n].state, WindowOf(Newest(start, log[..n]), log[n].write)))
  {
    hide Resumable, Due, Written, WindowOf;
    var part := log[..n + 1];
    forall m | 0 <= m < |part| ensures Entered(start, part[..m], part[m]) {
      assert part[..m] == log[..m] && part[m] == log[m];
    }
    LogIsResumable(start, part);
    assert part[..n] == log[..n];
  }

  /**
   * A crash after the n-th write costs fields exactly when that write deleted the duplicate dialogs of a lone match
   * whose surviving dialog is out of date, or duplicates of a match whose users are in descending order.
   */
  lemma CrashIsExact(start: Database, log: seq<LogEntry>, n: nat)
    requires IsLog(start, log) && n < |log|
    ensures var db := log[n].state;
            Target(db) == Target(start) <==>
            match log[n].write
            case DeleteDialogs(_, s) =>
              s in db.dialogs && db.dialogs[s].matchId in db.matches
              && (LoneMatch(db.matches, db.dialogs[s].matchId) ==> UpToDate(db, s))
            case DeleteMatches(_, k) => k in db.matches && db.matches[k].user1 <= db.matches[k].user2
            case _ => true
  {
    hide Target;
    var before, w := Newest(start, log[..n]), log[n].write;
    assert Entered(start, log[..n], log[n]);
    PrefixIsResumable(start, log, n);
    ResumeIsExact(start, CrashPoint(log[n].state, WindowOf(before, w)));
    if w.DeleteDialogs? {
      assert IsDuplicates(before, w.ids, w.survivor);
      assert log[n].state.matches == before.matches && log[n].state.dialogs[w.survivor] == before.dialogs[w.survivor];
    }
  }

  /** Either window closes with the very next write, which brings the document left behind up to date. */
  lemma WindowClosesNext(start: Database, log: seq<LogEntry>, n: nat)
    requires IsLog(start, log) && n + 1 < |log|
    ensures var next := log[n + 1];
            match log[n].write
            case DeleteDialogs(_, s) =>
              && next.write.UpdateDialog? && next.write.id == s
              && s in next.state.dialogs && next.state.dialogs[s].matchId in next.state.matches
              && next.state.dialogs[s].isActive && IsLatest(next.state.messages, s, next.state.dialogs[s].lastMessage)
            case DeleteMatches(_, k) =>
              && next.write.UpdateMatch? && next.write.id == k
              && k in next.state.matches && next.state.matches[k].user1 <= next.state.matches[k].user2
            case _ => true
  {
    hide Target, Resumable;
    assert Entered(start, log[..n + 1], log[n + 1]);
    assert log[..n + 1][n] == log[n];
    if log[n].write.DeleteDialogs? {
      FinalMatchIsLeast(log[n].state.matches, log[n].state.dialogs[log[n].write.survivor].matchId);
    }
  }

  // A run from `start` can have died in this state.
  ghost predicate DiedIn(start: Database, state: Database) {
    exists log: seq<LogEntry>, n :: IsLog(start, log) && 0 <= n < |log| && log[n].state == state
  }

  /** However often runs die and are started again, the last one ends where the first would have, up to stale fields. */
  lemma RestartedRuns(states: seq<Database>, n: nat)
    requires n < |states| && forall i :: 0 < i < |states| ==> DiedIn(states[i - 1], states[i])
    ensures SameSkeleton(Target(states[n]), Target(states[0]))
    ensures ReferencesClosed(states[0]) ==> ReferencesClosed(states[n])
  {
    hide Target, IsLog, Resumable, ReferencesClosed;
    forall i | 0 < i < |states| ensures LoggedFrom(states[i - 1], states[i]) {
      assert DiedIn(states[i - 1], states[i]);
      var log: seq<LogEntry>, m :| IsLog(states[i - 1], log) && 0 <= m < |log| && log[m].state == states[i];
      EntryIsResumable(states[i - 1], log, m);
    }
    RepeatedCrashes(states, n);
  }

  lemma EntryIsResumable(start: Database, log: seq<LogEntry>, n: nat)
    requires IsLog(start, log) && n < |log|
    ensures LoggedFrom(start, log[n].state)
  {
    hide Target, Resumable, WindowOf;
    PrefixIsResumable(start, log, n);
  }
}
