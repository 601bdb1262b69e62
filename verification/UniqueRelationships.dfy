// The migration itself: the command that merges duplicate likes, matches and dialogs.
module UniqueRelationships {
  import opened Documents
  import opened Ordering
  import opened Grouping
  import opened MigrationSpec
  import opened MigrationSteps
  import opened MigrationTheorems
  import opened MigrationLog

  datatype AuditResult = AuditResult(duplicateLikes: int, duplicateMatches: int, duplicateDialogs: int)

  datatype Outcome = Completed(remaining: AuditResult) | CleanupIncomplete(remaining: AuditResult)

  const INDEX_LIKES := "uniq_like_direction"
  const INDEX_MATCHES := "uniq_match_pair"
  const INDEX_DIALOGS := "uniq_dialog_match"

  function MatchIdOf(d: Dialog): Id {
    d.matchId
  }

  class UniqueRelationshipsMigration {
    var likes: map<Id, Like>
    var matches: map<Id, Match>
    var dialogs: map<Id, Dialog>
    var messages: map<Id, Message>
    var indexes: set<string>

    // Every write of the current run, with the state it left.
    ghost var log: seq<LogEntry>

    constructor (db: Database)
      ensures State() == db && indexes == {} && log == []
    {
      likes, matches, dialogs, messages := db.likes, db.matches, db.dialogs, db.messages;
      indexes, log := {}, [];
    }

    function State(): Database
      reads this
    {
      Database(likes, matches, dialogs, messages)
    }

    /** The log holds every write of the run begun in `start`. */
    ghost predicate Logged(start: Database)
      reads this
    {
      IsLog(start, log) && State() == Newest(start, log)
    }

    /** The run is logged, and no group is half done. */
    ghost predicate OnCourse(start: Database)
      reads this
    {
      Logged(start) && Resting(LastWrite(log))
    }

    // The write is due in the present state.
    ghost predicate CanWrite(start: Database, w: Write)
      reads this
    {
      Logged(start) && Due(LastWrite(log), State(), w)
    }

    /** The write has just been done. */
    ghost predicate HasWritten(start: Database, w: Write)
      reads this
    {
      Logged(start) && LastWrite(log) == Some(w)
    }

    /******* Single writes *******/

    method DeleteLikes(ids: seq<Id>, ghost start: Database)
      requires CanWrite(start, Write.DeleteLikes(Elements(ids)))
      modifies `likes, `log
      ensures HasWritten(start, Write.DeleteLikes(Elements(ids))) && likes == old(likes) - Elements(ids)
    {
      hide Due, IsLog;
      LogGrows(start, log, Write.DeleteLikes(Elements(ids)));
      likes := likes - Elements(ids);
      log := log + [LogEntry(Write.DeleteLikes(Elements(ids)), State())];
    }

    method DeleteMatches(ids: seq<Id>, ghost survivor: Id, ghost start: Database)
      requires CanWrite(start, Write.DeleteMatches(Elements(ids), survivor))
      modifies `matches, `log
      ensures HasWritten(start, Write.DeleteMatches(Elements(ids), survivor)) && matches == old(matches) - Elements(ids)
    {
      hide Due, IsLog;
      LogGrows(start, log, Write.DeleteMatches(Elements(ids), survivor));
      matches := matches - Elements(ids);
      log := log + [LogEntry(Write.DeleteMatches(Elements(ids), survivor), State())];
    }

    method UpdateMatch(id: Id, user1: Id, user2: Id, ghost start: Database)
      requires CanWrite(start, Write.UpdateMatch(id, Match(user1, user2)))
      modifies `matches, `log
      ensures HasWritten(start, Write.UpdateMatch(id, Match(user1, user2))) && matches == old(matches)[id := Match(user1, user2)]
    {
      hide Due, IsLog;
      LogGrows(start, log, Write.UpdateMatch(id, Match(user1, user2)));
      matches := matches[id := Match(user1, user2)];
      log := log + [LogEntry(Write.UpdateMatch(id, Match(user1, user2)), State())];
    }

    method RepointMessages(from: seq<Id>, to: Id, ghost start: Database)
      requires CanWrite(start, MoveMessages(Elements(from), to))
      modifies `messages, `log
      ensures HasWritten(start, MoveMessages(Elements(from), to)) && messages == Repointed(old(messages), Elements(from), to)
    {
      hide Due, IsLog;
      LogGrows(start, log, MoveMessages(Elements(from), to));
      messages := Repointed(messages, Elements(from), to);
      log := log + [LogEntry(MoveMessages(Elements(from), to), State())];
    }

    method DeleteDialogs(ids: seq<Id>, ghost survivor: Id, ghost start: Database)
      requires CanWrite(start, Write.DeleteDialogs(Elements(ids), survivor))
      modifies `dialogs, `log
      ensures HasWritten(start, Write.DeleteDialogs(Elements(ids), survivor)) && dialogs == old(dialogs) - Elements(ids)
    {
      hide Due, IsLog;
      LogGrows(start, log, Write.DeleteDialogs(Elements(ids), survivor));
      dialogs := dialogs - Elements(ids);
      log := log + [LogEntry(Write.DeleteDialogs(Elements(ids), survivor), State())];
    }

    method UpdateDialog(id: Id, matchId: Id, user1: Id, user2: Id, lastMessage: Option<Id>, ghost start: Database)
      requires id in dialogs
      requires CanWrite(start, Write.UpdateDialog(id, Consolidated(dialogs[id], matchId, (user1, user2), lastMessage)))
      modifies `dialogs, `log
      ensures var value := Consolidated(old(dialogs)[id], matchId, (user1, user2), lastMessage);
              HasWritten(start, Write.UpdateDialog(id, value)) && dialogs == old(dialogs)[id := value]
    {
      hide Due, IsLog;
      ghost var value := Consolidated(dialogs[id], matchId, (user1, user2), lastMessage);
      LogGrows(start, log, Write.UpdateDialog(id, value));
      dialogs := dialogs[id := Consolidated(dialogs[id], matchId, (user1, user2), lastMessage)];
      log := log + [LogEntry(Write.UpdateDialog(id, value), State())];
    }

    /******* Queries *******/

    // The dialogs of the given matches in ascending order of id.
    method FindDialogs(matchIds: seq<Id>) returns (found: seq<Id>)
      ensures Ascending(found) && NoRepeats(found)
      ensures forall d :: d in found <==> d in dialogs && dialogs[d].matchId in matchIds
    {
      var members := set d | d in dialogs && dialogs[d].matchId in matchIds;
      var listed := Listing(members);
      found := SortedIds(listed);
      SameElements(listed, found) by { SymmetricPermutation(listed, found); }
      assert forall d :: d in found <==> d in Elements(found);
    }

    // `findOne({ dialogId }, { sort: { created_at: -1, _id: -1 } })`.
    method FindLastMessage(dialogId: Id) returns (last: Option<Id>)
      ensures IsLatest(messages, dialogId, last)
      ensures last.None? <==> forall i :: i in messages ==> messages[i].dialogId != dialogId
      ensures last.Some? ==> last.value in messages && messages[last.value].dialogId == dialogId
      ensures last.Some? ==>
                var m := last.value;
                forall i :: i in messages && messages[i].dialogId == dialogId && i != m ==>
                  messages[i].createdAt < messages[m].createdAt || (messages[i].createdAt == messages[m].createdAt && i < m)
    {
      last := None;
      var rest := messages.Keys;
      while rest != {}
        invariant rest <= messages.Keys
        invariant IsLatestAmong(messages, dialogId, messages.Keys - rest, last)
      {
        var i :| i in rest;
        rest := rest - {i};
        if messages[i].dialogId == dialogId && (last.None? || Newer(messages, i, last.value)) {
          last := Some(i);
        }
      }
    }

    /******* Phases *******/

    method RemoveDuplicateLikes(ghost start: Database)
      requires OnCourse(start)
      modifies `likes, `log
      ensures OnCourse(start) && UniqueLikes(likes)
      ensures forall i, j :: i in likes && j in likes && i != j ==>
                likes[i].userId != likes[j].userId || likes[i].likedUserId != likes[j].likedUserId
    {
      hide Due, IsLog, Newest, Progress;
      var groups := DuplicateGroups(likes, LikeKey);
      ghost var before := likes;
      ghost var all := (k: (Id, Id)) => true;
      ProgressStarts(before, LikeKey, all, groups);
      for n := 0 to |groups|
        invariant OnCourse(start)
        invariant Progress(before, LikeKey, all, groups, n, likes)
      {
        var sorted := SortedIds(groups[n].ids);
        SortedGroup(before, LikeKey, all, groups, n, likes, sorted);
        ghost var current := State();
        LikesAreDue(LastWrite(log), current, sorted);
        DeleteLikes(sorted[1..], start);
        LikesReduced(before, all, groups, n, current.likes, sorted, likes);
      }
      ProgressEnds(before, LikeKey, all, groups, likes);
    }

    method MergeDuplicateMatches(ghost start: Database)
      requires OnCourse(start)
      modifies `matches, `dialogs, `messages, `log
      ensures OnCourse(start) && UniquePairs(matches)
      ensures forall k, n :: k in matches && n in matches && k != n ==>
                {matches[k].user1, matches[k].user2} != {matches[n].user1, matches[n].user2}
    {
      hide Due, IsLog, Newest, Progress, Settled, Target, MatchClass, FinalMatch;
      var groups := DuplicateGroups(matches, PairOf);
      ghost var before := matches;
      ghost var all := (p: (Id, Id)) => true;
      ProgressStarts(before, PairOf, all, groups);
      for n := 0 to |groups|
        invariant OnCourse(start)
        invariant Progress(before, PairOf, all, groups, n, matches)
      {
        var sorted := SortedIds(groups[n].ids);
        var survivorMatchId := sorted[0];
        SortedGroup(before, PairOf, all, groups, n, matches, sorted);
        ghost var current := matches;
        if survivorMatchId in matches {
          MergeGroup(sorted, start);
          MatchesMerged(before, all, groups, n, current, sorted, matches);
        }
      }
      ProgressEnds(before, PairOf, all, groups, matches);
      PairsAreUsers(matches);
    }

    method MergeGroup(sorted: seq<Id>, ghost start: Database)
      requires OnCourse(start) && |sorted| > 1 && Ascending(sorted) && NoRepeats(sorted)
      requires forall i :: i in sorted ==> i in matches
      requires sorted[0] in matches && forall i :: i in matches ==> (i in sorted <==> PairOf(matches[i]) == PairOf(matches[sorted[0]]))
      modifies `matches, `dialogs, `messages, `log
      ensures OnCourse(start)
      ensures matches == (old(matches) - Elements(sorted[1..]))[sorted[0] := Canonical(old(matches)[sorted[0]])]
    {
      hide Due, IsLog, Newest, Settled, Target, MatchClass, FinalMatch;
      var survivorMatchId, duplicateMatchIds := sorted[0], sorted[1..];
      var survivorMatch := matches[survivorMatchId];
      var pair := CanonicalPair(survivorMatch.user1, survivorMatch.user2);
      GroupIsMatchClass(matches, sorted);
      ConsolidateDialogs(sorted, survivorMatchId, pair.0, pair.1, start);
      MergeIsDue(LastWrite(log), State(), survivorMatchId, Elements(duplicateMatchIds));
      DeleteMatches(duplicateMatchIds, survivorMatchId, start);
      UpdateMatch(survivorMatchId, pair.0, pair.1, start);
    }

    method MergeDuplicateDialogs(ghost start: Database)
      requires OnCourse(start) && UniquePairs(matches)
      modifies `dialogs, `messages, `log
      ensures OnCourse(start) && UniqueDialogsOfMatches(matches, dialogs)
    {
      hide Due, IsLog, Newest, Progress;
      var groups := DuplicateGroups(dialogs, MatchIdOf);
      ghost var before := dialogs;
      ghost var ms := matches;
      ghost var existing := (k: Id) => k in ms;
      ProgressStarts(before, MatchIdOf, existing, groups);
      UniquePairsAreFinal(matches);
      for n := 0 to |groups|
        invariant OnCourse(start)
        invariant Progress(before, MatchIdOf, existing, groups, n, dialogs)
      {
        var matchId := groups[n].key;
        ghost var current := dialogs;
        if matchId in matches {
          var pair := CanonicalPair(matches[matchId].user1, matches[matchId].user2);
          TwoDialogs(before, existing, groups, n, dialogs);
          ConsolidateDialogs([matchId], matchId, pair.0, pair.1, start);
          OneDialogLeft(before, existing, groups, n, current, State(), matchId);
        }
        ProgressMade(before, MatchIdOf, existing, groups, n, current, dialogs);
      }
      ProgressEnds(before, MatchIdOf, existing, groups, dialogs);
    }

    method ConsolidateDialogs(matchIds: seq<Id>, survivorMatchId: Id, user1: Id, user2: Id, ghost start: Database)
      requires OnCourse(start)
      requires survivorMatchId in matches && (user1, user2) == PairOf(matches[survivorMatchId])
      requires FinalMatch(matches, survivorMatchId) == survivorMatchId
      requires Elements(matchIds) == MatchClass(matches, survivorMatchId)
      requires Elements(matchIds) == {survivorMatchId} ==>
                 exists d, e :: d in dialogs && e in dialogs && d != e
                                && dialogs[d].matchId == dialogs[e].matchId == survivorMatchId
      modifies `dialogs, `messages, `log
      ensures OnCourse(start)
      ensures Settled(State(), survivorMatchId)
      ensures OthersKept(matches, survivorMatchId, old(dialogs), dialogs)
    {
      hide Due, IsLog, Newest, Settled, OthersKept, Target, DialogClass, FinalDialog, FinalMatch, MatchClass, IsLatest, IsDuplicates;
      var found := FindDialogs(matchIds);
      FoundAreClass(matches, dialogs, survivorMatchId, matchIds, found);
      if found == [] {
        NothingToSettle(State(), survivorMatchId);
        NoneTouched(matches, survivorMatchId, dialogs);
        return;
      }
      var survivor, duplicates := found[0], found[1..];
      FirstIsSurvivor(matches, dialogs, survivorMatchId, found);
      if |duplicates| > 0 {
        FoundAreDuplicates(State(), found);
        MoveIsDue(LastWrite(log), State(), Elements(duplicates), survivor);
        RepointMessages(duplicates, survivor, start);
        DeleteIsDue(State(), old(messages), Elements(duplicates), survivor);
        DeleteDialogs(duplicates, survivor, start);
      } else {
        assert Elements(found) == {survivor};
      }
      var lastMessage := FindLastMessage(survivor);
      ghost var ready := State();
      ghost var value := Consolidated(ready.dialogs[survivor], survivorMatchId, (user1, user2), lastMessage);
      UpdateIsDue(LastWrite(log), ready, survivor, survivorMatchId, lastMessage, value);
      SettledByUpdate(ready, survivor, survivorMatchId, lastMessage, value);
      OnlyFoundTouched(matches, survivorMatchId, old(dialogs), found, value);
      assert ready.dialogs == old(dialogs) - Elements(duplicates);
      UpdateDialog(survivor, survivorMatchId, user1, user2, lastMessage, start);
    }

    /******* The audit *******/

    /** Each count is the number of documents beyond the number of distinct keys. */
    method Audit() returns (result: AuditResult)
      ensures result.duplicateLikes == |likes| - |set i | i in likes :: (likes[i].userId, likes[i].likedUserId)| >= 0
      ensures result.duplicateMatches == |matches| - |set k | k in matches :: {matches[k].user1, matches[k].user2}| >= 0
      ensures result.duplicateDialogs == |dialogs| - |set d | d in dialogs :: dialogs[d].matchId| >= 0
      ensures result.duplicateLikes == 0 <==> UniqueLikes(likes)
      ensures result.duplicateMatches == 0 <==> UniquePairs(matches)
      ensures result.duplicateDialogs == 0 <==> UniqueDialogs(dialogs)
    {
      var likeGroups := DuplicateGroups(likes, LikeKey);
      var matchGroups := DuplicateGroups(matches, PairOf);
      var dialogGroups := DuplicateGroups(dialogs, MatchIdOf);
      result := AuditResult(ExtraDocuments(likeGroups), ExtraDocuments(matchGroups), ExtraDocuments(dialogGroups));
      ExtraDocumentsCount(likes, LikeKey, likeGroups);
      ExtraDocumentsCount(matches, PairOf, matchGroups);
      ExtraDocumentsCount(dialogs, MatchIdOf, dialogGroups);
      assert KeysOf(likes, LikeKey) == set i | i in likes :: (likes[i].userId, likes[i].likedUserId);
      assert KeysOf(dialogs, MatchIdOf) == set d | d in dialogs :: dialogs[d].matchId;
      AsManyPairsAsUsers(matches);
      NoExtraDocuments(likes, LikeKey, likeGroups);
      NoExtraDocuments(matches, PairOf, matchGroups);
      NoExtraDocuments(dialogs, MatchIdOf, dialogGroups);
    }

    /******* The run *******/

    method CreateIndexes()
      requires UniqueLikes(likes) && UniquePairs(matches) && UniqueDialogs(dialogs)
      modifies `indexes
      ensures indexes == old(indexes) + {INDEX_LIKES, INDEX_MATCHES, INDEX_DIALOGS}
    {
      indexes := indexes + {INDEX_LIKES};
      indexes := indexes + {INDEX_MATCHES};
      indexes := indexes + {INDEX_DIALOGS};
    }

    // The server refuses to drop an index that is not there.
    method DropIndex(name: string)
      requires name in indexes
      modifies `indexes
      ensures indexes == old(indexes) - {name}
    {
      indexes := indexes - {name};
    }

    method DropIndexIfExists(name: string)
      modifies `indexes
      ensures indexes == old(indexes) - {name}
    {
      if name in indexes {
        DropIndex(name);
      }
    }

    method RollbackIndexes()
      modifies `indexes
      ensures indexes == old(indexes) - {INDEX_LIKES, INDEX_MATCHES, INDEX_DIALOGS}
    {
      DropIndexIfExists(INDEX_LIKES);
      DropIndexIfExists(INDEX_MATCHES);
      DropIndexIfExists(INDEX_DIALOGS);
    }

    /** Leaves the target database, and reports an incomplete clean-up exactly when a missing match had two dialogs. */
    method Apply() returns (outcome: Outcome)
      modifies this
      ensures State() == Target(old(State()))
      ensures UniqueLikes(likes) && UniquePairs(matches) && UniqueDialogsOfMatches(matches, dialogs)
      ensures Logged(old(State()))
      ensures outcome.Completed? <==> NoOrphanDuplicates(old(State()))
      ensures outcome.Completed? ==> UniqueDialogs(dialogs) && outcome.remaining == AuditResult(0, 0, 0)
      ensures outcome.Completed? ==> indexes == old(indexes) + {INDEX_LIKES, INDEX_MATCHES, INDEX_DIALOGS}
      ensures outcome.CleanupIncomplete? ==> indexes == old(indexes)
      ensures outcome.CleanupIncomplete? ==>
                outcome.remaining == AuditResult(0, 0, |dialogs| - |set d | d in dialogs :: dialogs[d].matchId|)
                && outcome.remaining.duplicateDialogs > 0
    {
      hide Target, IsLog, KeysOf, NoOrphanDuplicates;
      ghost var start := State();
      log := [];
      NothingLogged(start);
      RemoveDuplicateLikes(start);
      MergeDuplicateMatches(start);
      MergeDuplicateDialogs(start);
      RunEnds(start, log);

      var remaining := Audit();
      if remaining.duplicateLikes > 0 || remaining.duplicateMatches > 0 || remaining.duplicateDialogs > 0 {
        return CleanupIncomplete(remaining);
      }
      CreateIndexes();
      return Completed(remaining);
    }

    /** The command: `--apply` wins over `--rollback-indexes`, and without either nothing is changed. */
    method Run(args: seq<string>) returns (exitCode: nat)
      modifies this
      ensures State() == if "--apply" in args then Target(old(State())) else old(State())
      ensures "--apply" in args ==>
                if NoOrphanDuplicates(old(State())) then exitCode == 0 && {INDEX_LIKES, INDEX_MATCHES, INDEX_DIALOGS} <= indexes
                else exitCode == 1 && indexes == old(indexes)
      ensures "--apply" !in args && "--rollback-indexes" in args ==>
                exitCode == 0 && {INDEX_LIKES, INDEX_MATCHES, INDEX_DIALOGS} !! indexes
      ensures "--apply" !in args && "--rollback-indexes" !in args ==>
                indexes == old(indexes)
                && exitCode == if UniqueLikes(likes) && UniquePairs(matches) && UniqueDialogs(dialogs) then 0 else 2
    {
      hide Target, IsLog, KeysOf, NoOrphanDuplicates, UniqueLikes, UniquePairs, UniqueDialogs;
      if "--apply" in args {
        var outcome := Apply();
        return if outcome.Completed? then 0 else 1;
      } else if "--rollback-indexes" in args {
        RollbackIndexes();
        return 0;
      } else {
        var result := Audit();
        return if result.duplicateLikes > 0 || result.duplicateMatches > 0 || result.duplicateDialogs > 0 then 2 else 0;
      }
    }
  }

  // A pair in order is its two users.
  lemma PairsAreUsers(ms: map<Id, Match>)
    ensures forall k, n :: k in ms && n in ms ==>
              (PairOf(ms[k]) == PairOf(ms[n]) <==> {ms[k].user1, ms[k].user2} == {ms[n].user1, ms[n].user2})
  {
    forall k, n | k in ms && n in ms
      ensures PairOf(ms[k]) == PairOf(ms[n]) <==> {ms[k].user1, ms[k].user2} == {ms[n].user1, ms[n].user2}
    {
      PairIsUsers(ms[k], ms[n]);
    }
  }

  lemma PairIsUsers(m: Match, n: Match)
    ensures PairOf(m) == PairOf(n) <==> {m.user1, m.user2} == {n.user1, n.user2}
  {
    assert {m.user1, m.user2} == {PairOf(m).0, PairOf(m).1} && {n.user1, n.user2} == {PairOf(n).0, PairOf(n).1};
    if {m.user1, m.user2} == {n.user1, n.user2} {
      assert m.user1 in {n.user1, n.user2} && m.user2 in {n.user1, n.user2} && n.user1 in {m.user1, m.user2};
      assert n.user2 in {m.user1, m.user2};
    }
  }

  lemma AsManyPairsAsUsers(ms: map<Id, Match>)
    ensures |KeysOf(ms, PairOf)| == |set k | k in ms :: {ms[k].user1, ms[k].user2}|
  {
    var pairs, users := KeysOf(ms, PairOf), set k | k in ms :: {ms[k].user1, ms[k].user2};
    var usersOf := (p: (Id, Id)) => {p.0, p.1};
    forall k | k in ms ensures usersOf(PairOf(ms[k])) == {ms[k].user1, ms[k].user2} && PairOf(ms[k]) in pairs {
    }
    forall p | p in pairs ensures usersOf(p) in users {
      var k :| k in ms && PairOf(ms[k]) == p;
    }
    forall u | u in users ensures exists p :: p in pairs && usersOf(p) == u {
      var k :| k in ms && u == {ms[k].user1, ms[k].user2};
      assert usersOf(PairOf(ms[k])) == u;
    }
    forall p, q | p in pairs && q in pairs && usersOf(p) == usersOf(q) ensures p == q {
      var k :| k in ms && PairOf(ms[k]) == p;
      var n :| n in ms && PairOf(ms[n]) == q;
      PairIsUsers(ms[k], ms[n]);
    }
    ImageSize(pairs, usersOf, users);
  }

  lemma SymmetricPermutation<T>(s: seq<T>, t: seq<T>)
    requires Permutation(t, s)
    ensures Permutation(s, t)
  {
  }

  // No extra documents means no group, and no group means no key is carried twice.
  lemma NoExtraDocuments<T, K>(collection: map<Id, T>, key: T -> K, groups: seq<Group<K>>)
    requires IsGrouping(collection, key, groups)
    ensures ExtraDocuments(groups) == 0 <==>
            forall i, j :: i in collection && j in collection && key(collection[i]) == key(collection[j]) ==> i == j
  {
    if groups != [] {
      SomeExtraDocuments(collection, key, groups);
    } else {
      forall i, j | i in collection && j in collection && key(collection[i]) == key(collection[j]) ensures i == j {
        if i != j {
          assert false;
        }
      }
    }
  }

  lemma SomeExtraDocuments<T, K>(collection: map<Id, T>, key: T -> K, groups: seq<Group<K>>)
    requires IsGrouping(collection, key, groups) && groups != []
    ensures ExtraDocuments(groups) > 0
    ensures exists i, j :: i in collection && j in collection && key(collection[i]) == key(collection[j]) && i != j
  {
    var n := |groups| - 1;
    GroupRemoved(collection, key, groups);
    ExtraDocumentsCount(collection - Elements(groups[n].ids[1..]), key, groups[..n]);
    assert IsGroup(collection, key, groups[n]);
    var i, j := groups[n].ids[0], groups[n].ids[1];
    assert i in groups[n].ids && j in groups[n].ids;
  }

  /******* Groups and their sorted ids *******/

  // The loop over the groups has dealt with the first n: where the key is covered, one document is left.
  ghost predicate Progress<T, K>(before: map<Id, T>, key: T -> K, covered: K -> bool, groups: seq<Group<K>>, n: int,
                                 after: map<Id, T>)
  {
    && IsGrouping(before, key, groups)
    && (forall i :: i in after ==> i in before && key(after[i]) == key(before[i]))
    && (forall m, i :: 0 <= n <= m < |groups| && i in groups[m].ids ==> i in after)
    && (forall m, i, j | 0 <= m < n && m < |groups| && i in groups[m].ids && j in groups[m].ids ::
          covered(groups[m].key) && i in after && j in after ==> i == j)
  }

  lemma ProgressStarts<T, K>(before: map<Id, T>, key: T -> K, covered: K -> bool, groups: seq<Group<K>>)
    requires IsGrouping(before, key, groups)
    ensures Progress(before, key, covered, groups, 0, before)
  {
    forall m, i | 0 <= m < |groups| && i in groups[m].ids ensures i in before {
      assert IsGroup(before, key, groups[m]);
    }
  }

  lemma ProgressMade<T, K>(before: map<Id, T>, key: T -> K, covered: K -> bool, groups: seq<Group<K>>, n: int,
                           current: map<Id, T>, after: map<Id, T>)
    requires 0 <= n < |groups| && Progress(before, key, covered, groups, n, current)
    requires forall i :: i in after ==> i in current && key(after[i]) == key(current[i])
    requires forall i :: i in current && i !in groups[n].ids ==> i in after
    requires covered(groups[n].key) ==> forall i, j :: i in groups[n].ids && j in groups[n].ids && i in after && j in after ==> i == j
    ensures Progress(before, key, covered, groups, n + 1, after)
  {
    forall m, i | n < m < |groups| && i in groups[m].ids ensures i in after {
      assert IsGroup(before, key, groups[m]) && IsGroup(before, key, groups[n]);
      assert groups[n].key != groups[m].key;
    }
  }

  // When each covered group is down to one document, no covered key is carried twice.
  lemma ProgressEnds<T, K>(before: map<Id, T>, key: T -> K, covered: K -> bool, groups: seq<Group<K>>, after: map<Id, T>)
    requires Progress(before, key, covered, groups, |groups|, after)
    ensures forall i, j :: i in after && j in after && key(after[i]) == key(after[j]) && covered(key(after[i])) ==> i == j
  {
    forall i, j | i in after && j in after && key(after[i]) == key(after[j]) && covered(key(after[i])) ensures i == j {
      if i != j {
        assert false;
      }
    }
  }

  // The first sorted id of a group is its oldest document, the others are the rest of the group.
  lemma SortedGroup<T, K>(before: map<Id, T>, key: T -> K, covered: K -> bool, groups: seq<Group<K>>, n: int,
                          current: map<Id, T>, sorted: seq<Id>)
    requires 0 <= n < |groups| && Progress(before, key, covered, groups, n, current)
    requires Ascending(sorted) && Permutation(sorted, groups[n].ids)
    ensures |sorted| > 1 && Ascending(sorted) && NoRepeats(sorted)
    ensures forall i :: i in sorted <==> i in groups[n].ids
    ensures forall i :: i in sorted[1..] <==> i in groups[n].ids && i != sorted[0]
    ensures forall i :: i in sorted ==> i in current
    ensures forall i :: i in current ==> (i in sorted <==> key(current[i]) == groups[n].key)
  {
    assert IsGroup(before, key, groups[n]);
    PermutationMembers(sorted, groups[n].ids);
    SymmetricPermutation(groups[n].ids, sorted);
    SameElements(groups[n].ids, sorted);
    assert sorted == [sorted[0]] + sorted[1..];
  }

  lemma GroupIsMatchClass(ms: map<Id, Match>, sorted: seq<Id>)
    requires |sorted| > 1 && Ascending(sorted) && NoRepeats(sorted) && sorted[0] in ms
    requires forall i :: i in sorted ==> i in ms
    requires forall i :: i in ms ==> (i in sorted <==> PairOf(ms[i]) == PairOf(ms[sorted[0]]))
    ensures Elements(sorted) == MatchClass(ms, sorted[0]) != {sorted[0]}
    ensures Elements(sorted[1..]) == MatchClass(ms, sorted[0]) - {sorted[0]} != {}
    ensures FinalMatch(ms, sorted[0]) == sorted[0]
  {
    FinalMatchIsLeast(ms, sorted[0]);
    assert FinalMatch(ms, sorted[0]) in sorted;
    assert sorted == [sorted[0]] + sorted[1..];
    assert sorted[1] in Elements(sorted[1..]) && sorted[1] in Elements(sorted);
  }

  lemma LikesReduced(before: map<Id, Like>, covered: ((Id, Id)) -> bool, groups: seq<Group<(Id, Id)>>, n: int,
                     current: map<Id, Like>, sorted: seq<Id>, after: map<Id, Like>)
    requires 0 <= n < |groups| && Progress(before, LikeKey, covered, groups, n, current)
    requires |sorted| > 1 && forall i :: i in sorted[1..] <==> i in groups[n].ids && i != sorted[0]
    requires after == current - Elements(sorted[1..])
    ensures Progress(before, LikeKey, covered, groups, n + 1, after)
  {
    ProgressMade(before, LikeKey, covered, groups, n, current, after);
  }

  lemma MatchesMerged(before: map<Id, Match>, covered: ((Id, Id)) -> bool, groups: seq<Group<(Id, Id)>>, n: int,
                      current: map<Id, Match>, sorted: seq<Id>, after: map<Id, Match>)
    requires 0 <= n < |groups| && Progress(before, PairOf, covered, groups, n, current)
    requires |sorted| > 1 && NoRepeats(sorted) && sorted[0] in current
    requires forall i :: i in sorted <==> i in groups[n].ids
    requires forall i :: i in sorted[1..] <==> i in groups[n].ids && i != sorted[0]
    requires after == (current - Elements(sorted[1..]))[sorted[0] := Canonical(current[sorted[0]])]
    ensures Progress(before, PairOf, covered, groups, n + 1, after)
  {
    ProgressMade(before, PairOf, covered, groups, n, current, after);
  }

  // A group of dialogs not yet dealt with still has two of them.
  lemma TwoDialogs(before: map<Id, Dialog>, covered: Id -> bool, groups: seq<Group<Id>>, n: int, ds: map<Id, Dialog>)
    requires 0 <= n < |groups| && Progress(before, MatchIdOf, covered, groups, n, ds)
    ensures exists d, e :: d in ds && e in ds && d != e && ds[d].matchId == ds[e].matchId == groups[n].key
  {
    var g := groups[n];
    assert IsGroup(before, MatchIdOf, g);
    assert g.ids[0] in g.ids && g.ids[1] in g.ids && g.ids[0] != g.ids[1];
  }

  lemma OneDialogLeft(before: map<Id, Dialog>, covered: Id -> bool, groups: seq<Group<Id>>, n: int,
                      current: map<Id, Dialog>, db: Database, k: Id)
    requires 0 <= n < |groups| && Progress(before, MatchIdOf, covered, groups, n, current) && groups[n].key == k
    requires UniquePairs(db.matches) && k in db.matches && Settled(db, k)
    requires OthersKept(db.matches, k, current, db.dialogs)
    ensures forall d :: d in db.dialogs ==> db.dialogs[d].matchId == current[d].matchId
    ensures forall d :: d in current && d !in groups[n].ids ==> d in db.dialogs
    ensures forall d, e :: d in groups[n].ids && e in groups[n].ids && d in db.dialogs && e in db.dialogs ==> d == e
  {
    UniquePairsAreFinal(db.matches);
    assert IsGroup(before, MatchIdOf, groups[n]);
  }

  /******* The dialogs of one surviving match *******/

  lemma FoundAreClass(ms: map<Id, Match>, ds: map<Id, Dialog>, k: Id, matchIds: seq<Id>, found: seq<Id>)
    requires k in ms && FinalMatch(ms, k) == k && Elements(matchIds) == MatchClass(ms, k)
    requires forall d :: d in found <==> d in ds && ds[d].matchId in matchIds
    ensures forall d :: d in found <==> d in ds && FinalMatch(ms, ds[d].matchId) == k
    ensures forall d :: d in found ==> ds[d].matchId in ms && DialogClass(ms, ds, d) == Elements(found)
  {
    FinalMatchIsLeast(ms, k);
    forall d | d in ds ensures ds[d].matchId in matchIds <==> FinalMatch(ms, ds[d].matchId) == k {
      assert ds[d].matchId in matchIds <==> ds[d].matchId in Elements(matchIds);
      if ds[d].matchId in ms {
        SameFinalMatch(ms, ds[d].matchId, k);
      }
    }
    forall d | d in found ensures DialogClass(ms, ds, d) == Elements(found) {
    }
  }

  // Consolidating the dialogs of match k leaves every other dialog as it is and moves none to another match.
  ghost predicate OthersKept(ms: map<Id, Match>, k: Id, before: map<Id, Dialog>, after: map<Id, Dialog>) {
    && (forall d :: d in after ==> d in before && FinalMatch(ms, after[d].matchId) == FinalMatch(ms, before[d].matchId))
    && (forall d :: d in before && FinalMatch(ms, before[d].matchId) != k ==> d in after && after[d] == before[d])
  }

  lemma NoneTouched(ms: map<Id, Match>, k: Id, ds: map<Id, Dialog>)
    ensures OthersKept(ms, k, ds, ds)
  {
  }

  lemma OnlyFoundTouched(ms: map<Id, Match>, k: Id, before: map<Id, Dialog>, found: seq<Id>, value: Dialog)
    requires found != [] && value.matchId == k && FinalMatch(ms, k) == k
    requires forall d :: d in found <==> d in before && FinalMatch(ms, before[d].matchId) == k
    ensures OthersKept(ms, k, before, (before - Elements(found[1..]))[found[0] := value])
  {
    assert forall d :: d in found[1..] ==> d in found;
    assert found[0] in found;
  }

  lemma FirstIsSurvivor(ms: map<Id, Match>, ds: map<Id, Dialog>, k: Id, found: seq<Id>)
    requires found != [] && Ascending(found) && NoRepeats(found)
    requires forall d :: d in found <==> d in ds && FinalMatch(ms, ds[d].matchId) == k
    requires forall d :: d in found ==> ds[d].matchId in ms && DialogClass(ms, ds, d) == Elements(found)
    ensures FinalDialog(ms, ds, found[0]) == found[0]
    ensures Elements(found[1..]) == DialogClass(ms, ds, found[0]) - {found[0]}
  {
    FinalDialogIsLeast(ms, ds, found[0]);
    assert found == [found[0]] + found[1..];
    assert FinalDialog(ms, ds, found[0]) in found;
  }

  /******* Each write is due *******/

  // A log that rests in a clean database has come to the target.
  lemma RunEnds(start: Database, log: seq<LogEntry>)
    requires IsLog(start, log) && Resting(LastWrite(log)) && Clean(Newest(start, log))
    ensures Newest(start, log) == Target(start)
    ensures UniqueDialogs(Newest(start, log).dialogs) <==> NoOrphanDuplicates(start)
  {
    hide Target, Due, UniqueDialogs, NoOrphanDuplicates;
    PointFits(start, log);
    LogIsResumable(start, log);
    CleanIsFinal(Newest(start, log));
    IncompleteExactlyForOrphans(start);
  }

  lemma LikesAreDue(last: Option<Write>, db: Database, sorted: seq<Id>)
    requires Resting(last) && |sorted| > 1 && Ascending(sorted) && NoRepeats(sorted) && sorted[0] in db.likes
    requires forall i :: i in sorted ==> i in db.likes
    requires forall i :: i in db.likes ==> (i in sorted <==> LikeKey(db.likes[i]) == LikeKey(db.likes[sorted[0]]))
    ensures Due(last, db, Write.DeleteLikes(Elements(sorted[1..])))
  {
    assert sorted == [sorted[0]] + sorted[1..];
    assert FirstLike(db.likes, sorted[0]);
    assert sorted[1] in Elements(sorted[1..]);
    assert Elements(sorted[1..]) == OtherLikes(db.likes, sorted[0]);
  }

  lemma FoundAreDuplicates(db: Database, found: seq<Id>)
    requires |found| > 1 && NoRepeats(found) && found[0] in db.dialogs && db.dialogs[found[0]].matchId in db.matches
    requires FinalDialog(db.matches, db.dialogs, found[0]) == found[0]
    requires Elements(found[1..]) == DialogClass(db.matches, db.dialogs, found[0]) - {found[0]}
    ensures IsDuplicates(db, Elements(found[1..]), found[0])
  {
    hide FinalDialog, DialogClass;
    assert found[1] in Elements(found[1..]);
  }

  lemma MoveIsDue(last: Option<Write>, db: Database, from: set<Id>, to: Id)
    requires Resting(last) && IsDuplicates(db, from, to)
    ensures Due(last, db, MoveMessages(from, to))
  {
  }

  // Once their messages are moved the duplicates may go, and the survivor is alone.
  lemma DeleteIsDue(db: Database, before: map<Id, Message>, ids: set<Id>, s: Id)
    requires IsDuplicates(db.(messages := before), ids, s) && db.messages == Repointed(before, ids, s)
    ensures Due(Some(MoveMessages(ids, s)), db, Write.DeleteDialogs(ids, s))
    ensures s in db.dialogs - ids && DialogClass(db.matches, db.dialogs - ids, s) == {s}
    ensures (db.dialogs - ids)[s] == db.dialogs[s]
  {
    DialogClassesAfterDelete(db.matches, db.dialogs, s, ids);
  }

  lemma UpdateIsDue(before: Option<Write>, db: Database, s: Id, k: Id, last: Option<Id>, value: Dialog)
    requires s in db.dialogs && k in db.matches && FinalMatch(db.matches, db.dialogs[s].matchId) == k
    requires DialogClass(db.matches, db.dialogs, s) == {s} && IsLatest(db.messages, s, last)
    requires value == ConsolidatedAt(db, s, k, last)
    requires if Resting(before) then MatchClass(db.matches, k) != {k}
             else before.value.DeleteDialogs? && before.value.survivor == s
    ensures Due(before, db, Write.UpdateDialog(s, value))
  {
    FinalMatchOf(db, s, k);
    LatestIsUnique(db.messages, s, last, Latest(db.messages, s));
    hide IsLatest, DialogClass, FinalMatch;
  }

  lemma SettledByUpdate(db: Database, s: Id, k: Id, last: Option<Id>, value: Dialog)
    requires s in db.dialogs && k in db.matches && FinalMatch(db.matches, db.dialogs[s].matchId) == k
    requires DialogClass(db.matches, db.dialogs, s) == {s} && IsLatest(db.messages, s, last)
    requires value == ConsolidatedAt(db, s, k, last)
    ensures Settled(db.(dialogs := db.dialogs[s := value]), k)
  {
    var ms, ds := db.matches, db.dialogs[s := value];
    FinalMatchOf(db, s, k);
    FinalMatchIsLeast(ms, db.dialogs[s].matchId);
    assert DialogClass(ms, ds, s) == {s} by {
      hide Target, DialogClass, FinalMatch, IsLatest, MatchClass;
      SurvivorUpdated(db, s, last, value);
    }
    LatestIsFinal(ms, ds, db.messages, s, last);
    forall d | d in ds && FinalMatch(ms, ds[d].matchId) == k ensures d == s {
      assert d in DialogClass(ms, ds, s);
    }
  }

  // The two writes that end the merge of match k.
  lemma MergeIsDue(last: Option<Write>, db: Database, k: Id, gone: set<Id>)
    requires Settled(db, k) && Resting(last)
    requires k in db.matches && FinalMatch(db.matches, k) == k && gone == MatchClass(db.matches, k) - {k} && gone != {}
    ensures Due(last, db, Write.DeleteMatches(gone, k))
    ensures Due(Some(Write.DeleteMatches(gone, k)), db.(matches := db.matches - gone), Write.UpdateMatch(k, Canonical(db.matches[k])))
  {
    MatchClassesAfterDelete(db.matches, k, gone);
  }

  lemma NothingToSettle(db: Database, k: Id)
    requires forall d :: d in db.dialogs ==> FinalMatch(db.matches, db.dialogs[d].matchId) != k
    ensures Settled(db, k)
  {
  }

  /******* The two windows *******/

  // In these two states the command has one way to begin.
  lemma OnlyMergeOfEleven(start: Database, w: Write)
    requires start.likes == map[] && UniquePairs(start.matches) && 1 in start.matches && start.dialogs.Keys == {10, 11}
    requires start.dialogs[10].matchId == 1 == start.dialogs[11].matchId
    requires Due(None, start, w)
    ensures w == MoveMessages({11}, 10)
  {
    TwoDialogsOneClass(start);
    UniquePairsAreFinal(start.matches);
    hide Latest, FinalMatch, MatchClass, DialogClass, FinalDialog;
    assert {10, 11} - {10} == {11};
    match w
    case MoveMessages(from, to) => assert to == 10 || to == 11;
    case _ =>
  }

  // The crash once dialog 11 is merged into dialog 10 and gone.
  lemma AfterDialogDelete(start: Database) returns (log: seq<LogEntry>)
    requires UniquePairs(start.matches) && 1 in start.matches && start.dialogs.Keys == {10, 11}
    requires start.dialogs[10].matchId == 1 == start.dialogs[11].matchId
    ensures IsLog(start, log) && |log| == 2
    ensures log[0] == LogEntry(MoveMessages({11}, 10), start.(messages := Repointed(start.messages, {11}, 10)))
    ensures log[1] == LogEntry(Write.DeleteDialogs({11}, 10), log[0].state.(dialogs := start.dialogs - {11}))
  {
    TwoDialogsOneClass(start);
    assert {10, 11} - {10} == {11};
    assert IsDuplicates(start, {11}, 10);
    hide DialogClass, FinalDialog, FinalMatch, MatchClass, Due, IsLog, IsDuplicates;
    MoveIsDue(None, start, {11}, 10);
    assert IsLog(start, []) by { NothingLogged(start); }
    LogGrows(start, [], MoveMessages({11}, 10));
    var moved := start.(messages := Repointed(start.messages, {11}, 10));
    log := [] + [LogEntry(MoveMessages({11}, 10), moved)];
    assert moved.(messages := start.messages) == start;
    DeleteIsDue(moved, start.messages, {11}, 10);
    LogGrows(start, log, Write.DeleteDialogs({11}, 10));
    log := log + [LogEntry(Write.DeleteDialogs({11}, 10), moved.(dialogs := moved.dialogs - {11}))];
  }

  lemma NothingLogged(start: Database)
    ensures IsLog(start, [])
  {
  }

  /**
   * A database on which every complete run deletes duplicate dialog 11 and is then in a state from which no rerun ever
   * gives dialog 10 its last message, which is the newer of two.
   */
  lemma DialogWindowLosesFields() returns (start: Database, log: seq<LogEntry>)
    ensures |log| == 2 && log[1].write == Write.DeleteDialogs({11}, 10)
    ensures 10 in Target(start).dialogs && Target(start).dialogs[10].lastMessage == Some(100)
    ensures 10 in Target(log[1].state).dialogs && Target(log[1].state).dialogs[10].lastMessage == None
    ensures IsLog(start, log)
    ensures forall full: seq<LogEntry> :: IsLog(start, full) && Newest(start, full) == Target(start) ==> log <= full
  {
    var dialog := Dialog(1, 2, 3, true, None);
    start := Database(map[], map[1 := Match(2, 3)], map[10 := dialog, 11 := dialog],
                      map[100 := Message(11, 2, 5, ""), 101 := Message(11, 3, 0, "")]);
    log := AfterDialogDelete(start);
    var crashed := log[1].state;
    assert crashed.messages[100].dialogId == 10 && crashed.dialogs[10] == dialog;
    CleanIsFinal(crashed);
    NewerMessageIsLast(start);
    hide Target, IsLog, Due;
    forall full: seq<LogEntry> | IsLog(start, full) && Newest(start, full) == Target(start) ensures log <= full {
      EveryRunMergesEleven(start, log, full);
    }
  }

  lemma EveryRunMergesEleven(start: Database, log: seq<LogEntry>, full: seq<LogEntry>)
    requires start.likes == map[] && UniquePairs(start.matches) && 1 in start.matches && start.dialogs.Keys == {10, 11}
    requires start.dialogs[10].matchId == 1 == start.dialogs[11].matchId
    requires |log| == 2
    requires log[0] == LogEntry(MoveMessages({11}, 10), start.(messages := Repointed(start.messages, {11}, 10)))
    requires log[1] == LogEntry(Write.DeleteDialogs({11}, 10), log[0].state.(dialogs := start.dialogs - {11}))
    requires IsLog(start, full) && Newest(start, full) == Target(start)
    ensures log <= full
  {
    TwoDialogsBecomeOne(start);
    hide Target, IsLog, Due, UniquePairs;
    assert full != [];
    FirstEntry(start, full);
    OnlyMergeOfEleven(start, full[0].write);
    assert full[0].state.dialogs == start.dialogs;
    SecondEntry(start, full);
  }

  lemma NewerMessageIsLast(start: Database)
    requires UniquePairs(start.matches) && 1 in start.matches && start.dialogs.Keys == {10, 11}
    requires start.dialogs[10].matchId == 1 == start.dialogs[11].matchId
    requires start.messages.Keys == {100, 101} && start.messages[100].dialogId == 11 == start.messages[101].dialogId
    requires start.messages[100].createdAt > start.messages[101].createdAt
    ensures 10 in Target(start).dialogs && Target(start).dialogs[10].lastMessage == Some(100)
  {
    TwoDialogsOneClass(start);
    FinalDialogIsLeast(start.matches, start.dialogs, 11);
    assert Target(start).messages[100] == start.messages[100].(dialogId := 10);
    assert Target(start).messages[101] == start.messages[101].(dialogId := 10);
    assert Rewritten(start.matches, start.dialogs, 10);
    hide DialogClass, FinalDialog, MatchClass, FinalMatch;
    RewrittenDialogIsUpToDate(start, 10);
    hide Target;
    assert IsLatest(Target(start).messages, 10, Target(start).dialogs[10].lastMessage);
  }

  lemma TwoDialogsBecomeOne(start: Database)
    requires UniquePairs(start.matches) && 1 in start.matches && start.dialogs.Keys == {10, 11}
    requires start.dialogs[10].matchId == 1 == start.dialogs[11].matchId
    ensures 11 !in Target(start).dialogs
  {
    TwoDialogsOneClass(start);
    OldestDialogSurvives(start, 11);
  }

  // The first write of a log is due at the start.
  lemma FirstEntry(start: Database, log: seq<LogEntry>)
    requires IsLog(start, log) && log != []
    ensures Due(None, start, log[0].write) && log[0].state == Written(start, log[0].write)
  {
    assert Entered(start, log[..0], log[0]);
  }

  // After a move of messages comes the deletion of the dialogs they were in.
  lemma SecondEntry(start: Database, log: seq<LogEntry>)
    requires IsLog(start, log) && log != [] && log[0].write.MoveMessages?
    ensures |log| > 1 ==>
              && log[1].write == Write.DeleteDialogs(log[0].write.from, log[0].write.to)
              && log[1].state == Written(log[0].state, log[1].write)
  {
    if |log| > 1 {
      assert Entered(start, log[..1], log[1]);
    }
  }

  lemma TwoDialogsOneClass(db: Database)
    requires UniquePairs(db.matches) && 1 in db.matches && db.dialogs.Keys == {10, 11}
    requires db.dialogs[10].matchId == 1 == db.dialogs[11].matchId
    ensures FinalMatch(db.matches, 1) == 1 && MatchClass(db.matches, 1) == {1}
    ensures DialogClass(db.matches, db.dialogs, 10) == {10, 11} && FinalDialog(db.matches, db.dialogs, 10) == 10
    ensures DialogClass(db.matches, db.dialogs, 11) == {10, 11} && FinalDialog(db.matches, db.dialogs, 11) == 10
  {
    UniquePairsAreFinal(db.matches);
    assert DialogClass(db.matches, db.dialogs, 10) == {10, 11};
    FinalDialogIsLeast(db.matches, db.dialogs, 10);
  }

  /**
   * A database on which every complete run deletes duplicate match 4 and is then in a state from which no rerun ever
   * puts the users of match 1 in order.
   */
  lemma MatchWindowLosesFields() returns (start: Database, log: seq<LogEntry>)
    ensures |log| == 1 && log[0].write == Write.DeleteMatches({4}, 1)
    ensures 1 in Target(start).matches && Target(start).matches[1] == Match(2, 3)
    ensures 1 in Target(log[0].state).matches && Target(log[0].state).matches[1] == Match(3, 2)
    ensures IsLog(start, log)
    ensures forall full: seq<LogEntry> :: IsLog(start, full) && Newest(start, full) == Target(start) ==> log <= full
  {
    start := Database(map[], map[1 := Match(3, 2), 4 := Match(2, 3)], map[], map[]);
    TwoMatchesOneClass(start.matches);
    TargetOfMatch(start, 1);
    log := AfterMatchDelete(start);
    assert log[0].state.matches[1] == Match(3, 2);
    CleanIsFinal(log[0].state);
    hide Target, IsLog, MatchClass, FinalMatch;
    forall full: seq<LogEntry> | IsLog(start, full) && Newest(start, full) == Target(start) ensures log <= full {
      EveryRunMergesFour(start, log, full);
    }
  }

  // The crash once match 4 is gone and match 1 is not yet updated.
  lemma AfterMatchDelete(start: Database) returns (log: seq<LogEntry>)
    requires start.dialogs == map[] && start.matches.Keys == {1, 4} && PairOf(start.matches[1]) == PairOf(start.matches[4])
    ensures IsLog(start, log)
    ensures log == [LogEntry(Write.DeleteMatches({4}, 1), start.(matches := start.matches - {4}))]
  {
    TwoMatchesOneClass(start.matches);
    NothingToSettle(start, 1);
    hide Target, MatchClass, FinalMatch, IsLog, Due, Settled, PairOf;
    MergeIsDue(None, start, 1, {4});
    assert IsLog(start, []) by { NothingLogged(start); }
    LogGrows(start, [], Write.DeleteMatches({4}, 1));
    log := [] + [LogEntry(Write.DeleteMatches({4}, 1), start.(matches := start.matches - {4}))];
  }

  lemma EveryRunMergesFour(start: Database, log: seq<LogEntry>, full: seq<LogEntry>)
    requires start.likes == map[] && start.dialogs == map[] && start.matches.Keys == {1, 4}
    requires PairOf(start.matches[1]) == PairOf(start.matches[4])
    requires log == [LogEntry(Write.DeleteMatches({4}, 1), start.(matches := start.matches - {4}))]
    requires IsLog(start, full) && Newest(start, full) == Target(start)
    ensures log <= full
  {
    TwoMatchesOneClass(start.matches);
    OldestMatchSurvives(start, 4);
    hide Target, IsLog, Due, MatchClass;
    assert full != [];
    FirstEntry(start, full);
    OnlyMergeOfFour(start, full[0].write);
  }

  lemma TwoMatchesOneClass(ms: map<Id, Match>)
    requires ms.Keys == {1, 4} && PairOf(ms[1]) == PairOf(ms[4])
    ensures MatchClass(ms, 1) == {1, 4} == MatchClass(ms, 4) && FinalMatch(ms, 1) == 1 == FinalMatch(ms, 4)
    ensures {1, 4} - {1} == {4}
  {
    assert MatchClass(ms, 1) == {1, 4};
    FinalMatchIsLeast(ms, 1);
  }

  lemma OnlyMergeOfFour(start: Database, w: Write)
    requires start.likes == map[] && start.dialogs == map[] && start.matches.Keys == {1, 4}
    requires PairOf(start.matches[1]) == PairOf(start.matches[4]) && Due(None, start, w)
    ensures w == Write.DeleteMatches({4}, 1)
  {
    TwoMatchesOneClass(start.matches);
  }
}
