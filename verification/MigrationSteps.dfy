// The writes of the migration, one by one: what each does to the final database.
module MigrationSteps {
  import opened Documents
  import opened Ordering
  import opened MigrationSpec

  /******* likes.deleteMany *******/

  lemma OldestLike(likes: map<Id, Like>, i: Id) returns (j: Id)
    requires i in likes
    ensures FirstLike(likes, j) && LikeKey(likes[j]) == LikeKey(likes[i]) && j <= i
  {
    var alike := set n | n in likes && LikeKey(likes[n]) == LikeKey(likes[i]);
    assert i in alike;
    j := Least(alike);
    forall n | n in likes && LikeKey(likes[n]) == LikeKey(likes[j]) ensures j <= n {
      assert n in alike;
    }
  }

  lemma LikesDeleted(likes: map<Id, Like>, gone: set<Id>)
    requires forall i :: i in gone ==> !FirstLike(likes, i)
    ensures FinalLikes(likes - gone) == FinalLikes(likes)
  {
    forall i | i in likes ensures FirstLike(likes - gone, i) <==> FirstLike(likes, i) {
      var j := OldestLike(likes, i);
      assert j in likes - gone;
    }
    assert FinalLikes(likes - gone) == FinalLikes(likes);
  }

  /******* Two databases with the same dialog classes *******/

  lemma SameDialogClasses(ms: map<Id, Match>, ds: map<Id, Dialog>, ms': map<Id, Match>, ds': map<Id, Dialog>)
    requires ds'.Keys == ds.Keys
    requires forall d :: d in ds ==> FinalMatch(ms', ds'[d].matchId) == FinalMatch(ms, ds[d].matchId)
    requires forall d :: d in ds ==> (ds'[d].matchId in ms' <==> ds[d].matchId in ms)
    ensures forall d :: d in ds ==> DialogClass(ms', ds', d) == DialogClass(ms, ds, d)
    ensures forall d :: FinalDialog(ms', ds', d) == FinalDialog(ms, ds, d)
  {
    forall d | d in ds ensures DialogClass(ms', ds', d) == DialogClass(ms, ds, d) {
      forall e ensures e in DialogClass(ms', ds', d) <==> e in DialogClass(ms, ds, d) {
      }
    }
  }

  lemma SameFinalMessages(ms: map<Id, Match>, ds: map<Id, Dialog>, ms': map<Id, Match>, ds': map<Id, Dialog>,
                          msgs: map<Id, Message>)
    requires forall i :: i in msgs ==> FinalDialog(ms', ds', msgs[i].dialogId) == FinalDialog(ms, ds, msgs[i].dialogId)
    ensures FinalMessages(ms', ds', msgs) == FinalMessages(ms, ds, msgs)
  {
  }

  // Two databases whose survivors differ in value at s only.
  lemma FinalDialogsDifferAt(ms: map<Id, Match>, ds: map<Id, Dialog>, ms': map<Id, Match>, ds': map<Id, Dialog>,
                             final: map<Id, Message>, s: Id)
    requires s in ds && s in ds' && FinalDialog(ms, ds, s) == s
    requires forall d :: d in ds' && FinalDialog(ms', ds', d) == d <==> d in ds && FinalDialog(ms, ds, d) == d
    requires forall d :: d in ds && d in ds' && FinalDialog(ms, ds, d) == d && d != s ==>
               FinalDialogValue(ms', ds', final, d) == FinalDialogValue(ms, ds, final, d)
    ensures FinalDialogs(ms', ds', final) == FinalDialogs(ms, ds, final)[s := FinalDialogValue(ms', ds', final, s)]
    ensures FinalDialogs(ms, ds, final)[s] == FinalDialogValue(ms, ds, final, s)
  {
    hide FinalDialog, FinalDialogValue;
    var a, b := FinalDialogs(ms, ds, final), FinalDialogs(ms', ds', final);
    assert b.Keys == a.Keys;
    forall d | d in a && d != s ensures b[d] == a[d] {
    }
  }

  /******* messages.updateMany *******/

  function Repointed(msgs: map<Id, Message>, from: set<Id>, to: Id): map<Id, Message> {
    map i | i in msgs :: if msgs[i].dialogId in from then msgs[i].(dialogId := to) else msgs[i]
  }

  lemma RepointingKeepsFinal(ms: map<Id, Match>, ds: map<Id, Dialog>, msgs: map<Id, Message>, from: set<Id>, to: Id)
    requires to in ds && from <= DialogClass(ms, ds, to)
    ensures FinalMessages(ms, ds, Repointed(msgs, from, to)) == FinalMessages(ms, ds, msgs)
  {
    FinalDialogIsLeast(ms, ds, to);
    forall i | i in msgs
      ensures FinalDialog(ms, ds, Repointed(msgs, from, to)[i].dialogId) == FinalDialog(ms, ds, msgs[i].dialogId)
    {
    }
  }

  // Moving messages within a class of dialogs changes nothing in the final database.
  lemma MessagesRepointed(db: Database, from: set<Id>, to: Id)
    requires to in db.dialogs && from <= DialogClass(db.matches, db.dialogs, to)
    ensures Target(db.(messages := Repointed(db.messages, from, to))) == Target(db)
    ensures ReferencesClosed(db) ==> ReferencesClosed(db.(messages := Repointed(db.messages, from, to)))
  {
    RepointingKeepsFinal(db.matches, db.dialogs, db.messages, from, to);
  }

  /******* dialogs.deleteMany *******/

  lemma DialogClassesAfterDelete(ms: map<Id, Match>, ds: map<Id, Dialog>, s: Id, gone: set<Id>)
    requires s in ds && ds[s].matchId in ms && FinalDialog(ms, ds, s) == s
    requires gone == DialogClass(ms, ds, s) - {s}
    ensures DialogClass(ms, ds - gone, s) == {s} && FinalDialog(ms, ds - gone, s) == s
    ensures forall d :: d in ds && d !in DialogClass(ms, ds, s) ==>
              d in ds - gone && DialogClass(ms, ds - gone, d) == DialogClass(ms, ds, d)
    ensures forall d :: d !in gone ==> FinalDialog(ms, ds - gone, d) == FinalDialog(ms, ds, d)
    ensures forall d :: d in gone ==> FinalDialog(ms, ds, d) == s && d != s
  {
    FinalDialogIsLeast(ms, ds, s);
    assert s in DialogClass(ms, ds - gone, s);
    assert DialogClass(ms, ds - gone, s) == {s};
    forall d | d in ds && d !in DialogClass(ms, ds, s)
      ensures d in ds - gone && DialogClass(ms, ds - gone, d) == DialogClass(ms, ds, d)
    {
      assert DialogClass(ms, ds - gone, d) == DialogClass(ms, ds, d);
    }
  }

  lemma FinalValuesAfterDelete(ms: map<Id, Match>, ds: map<Id, Dialog>, final: map<Id, Message>, s: Id, gone: set<Id>,
                               d: Id)
    requires s in ds && ds[s].matchId in ms && FinalDialog(ms, ds, s) == s
    requires gone == DialogClass(ms, ds, s) - {s} && gone != {}
    requires d in ds && d !in gone
    ensures FinalDialogValue(ms, ds - gone, final, d) ==
            if d == s && MatchClass(ms, ds[s].matchId) == {ds[s].matchId} then ds[s]
            else FinalDialogValue(ms, ds, final, d)
  {
    DialogClassesAfterDelete(ms, ds, s, gone);
    if d == s {
      assert DialogClass(ms, ds, s) != {s};
    } else {
      assert d !in DialogClass(ms, ds, s);
    }
  }

  lemma FinalDialogsAfterDelete(ms: map<Id, Match>, ds: map<Id, Dialog>, final: map<Id, Message>, s: Id, gone: set<Id>)
    requires s in ds && ds[s].matchId in ms && FinalDialog(ms, ds, s) == s
    requires gone == DialogClass(ms, ds, s) - {s} && gone != {}
    ensures if MatchClass(ms, ds[s].matchId) != {ds[s].matchId}
            then FinalDialogs(ms, ds - gone, final) == FinalDialogs(ms, ds, final)
            else FinalDialogs(ms, ds - gone, final) == FinalDialogs(ms, ds, final)[s := ds[s]]
    ensures s in FinalDialogs(ms, ds, final)
  {
    forall d | d in ds - gone
      ensures FinalDialogValue(ms, ds - gone, final, d) ==
              if d == s && MatchClass(ms, ds[s].matchId) == {ds[s].matchId} then ds[s]
              else FinalDialogValue(ms, ds, final, d)
    {
      FinalValuesAfterDelete(ms, ds, final, s, gone, d);
    }
    DialogClassesAfterDelete(ms, ds, s, gone);
    FinalDialogsDifferAt(ms, ds, ms, ds - gone, final, s);
  }

  // Deleting the emptied duplicates of dialog s changes no final document but s itself, which
  // stays as it is when its match had no duplicate.
  lemma DialogsDeleted(db: Database, s: Id, gone: set<Id>)
    requires s in db.dialogs && db.dialogs[s].matchId in db.matches
    requires FinalDialog(db.matches, db.dialogs, s) == s
    requires gone == DialogClass(db.matches, db.dialogs, s) - {s} && gone != {}
    requires forall i :: i in db.messages ==> db.messages[i].dialogId !in gone
    ensures var k := db.dialogs[s].matchId;
            var after := Target(db.(dialogs := db.dialogs - gone));
            if MatchClass(db.matches, k) != {k} then after == Target(db)
            else after == Target(db).(dialogs := Target(db).dialogs[s := db.dialogs[s]])
    ensures s in Target(db).dialogs
    ensures ReferencesClosed(db) ==> ReferencesClosed(db.(dialogs := db.dialogs - gone))
  {
    var final := FinalMessages(db.matches, db.dialogs, db.messages);
    DialogClassesAfterDelete(db.matches, db.dialogs, s, gone);
    SameFinalMessages(db.matches, db.dialogs, db.matches, db.dialogs - gone, db.messages);
    FinalDialogsAfterDelete(db.matches, db.dialogs, final, s, gone);
  }

  /******* dialogs.updateOne *******/

  // Messages of a dialog that has its class to itself are final.
  lemma LatestIsFinal(ms: map<Id, Match>, ds: map<Id, Dialog>, msgs: map<Id, Message>, s: Id, last: Option<Id>)
    requires s in ds && DialogClass(ms, ds, s) == {s}
    requires IsLatest(msgs, s, last)
    ensures last == Latest(FinalMessages(ms, ds, msgs), s)
  {
    var final := FinalMessages(ms, ds, msgs);
    FinalDialogIsLeast(ms, ds, s);
    forall i | i in msgs ensures final[i].dialogId == s <==> msgs[i].dialogId == s {
      var d := msgs[i].dialogId;
      if d in ds && FinalDialog(ms, ds, d) == s {
        FinalDialogIsLeast(ms, ds, d);
        assert s in DialogClass(ms, ds, d);
        assert d in DialogClass(ms, ds, s);
      }
    }
    assert IsLatest(final, s, last);
    LatestIsUnique(final, s, last, Latest(final, s));
  }

  lemma FinalDialogsAfterUpdate(ms: map<Id, Match>, ds: map<Id, Dialog>, final: map<Id, Message>, s: Id, value: Dialog)
    requires s in ds && ds[s].matchId in ms && DialogClass(ms, ds, s) == {s}
    requires value == Consolidated(ds[s], FinalMatch(ms, ds[s].matchId), PairOf(ms[ds[s].matchId]), Latest(final, s))
    ensures forall d :: FinalDialog(ms, ds[s := value], d) == FinalDialog(ms, ds, d)
    ensures DialogClass(ms, ds[s := value], s) == {s}
    ensures FinalDialogs(ms, ds[s := value], final) == FinalDialogs(ms, ds, final)[s := value]
    ensures Rewritten(ms, ds, s) ==> FinalDialogs(ms, ds[s := value], final) == FinalDialogs(ms, ds, final)
  {
    FinalMatchIsLeast(ms, ds[s].matchId);
    FinalDialogIsLeast(ms, ds, s);
    var ds' := ds[s := value];
    SameDialogClasses(ms, ds, ms, ds');
    assert MatchClass(ms, value.matchId) == MatchClass(ms, ds[s].matchId);
    assert FinalDialogValue(ms, ds', final, s) == value;
    forall d | d in ds && d != s ensures FinalDialogValue(ms, ds', final, d) == FinalDialogValue(ms, ds, final, d) {
      assert Rewritten(ms, ds', d) == Rewritten(ms, ds, d);
    }
    FinalDialogsDifferAt(ms, ds, ms, ds', final, s);
  }

  lemma UpdateKeepsReferences(db: Database, s: Id, value: Dialog)
    requires s in db.dialogs && db.dialogs[s].matchId in db.matches
    requires value.matchId == FinalMatch(db.matches, db.dialogs[s].matchId)
    ensures ReferencesClosed(db) ==> ReferencesClosed(db.(dialogs := db.dialogs[s := value]))
  {
    FinalMatchIsLeast(db.matches, db.dialogs[s].matchId);
  }

  // Writing the survivor s, alone in its class, makes the final s that value; nothing else changes.
  lemma SurvivorUpdated(db: Database, s: Id, last: Option<Id>, value: Dialog)
    requires s in db.dialogs && db.dialogs[s].matchId in db.matches
    requires DialogClass(db.matches, db.dialogs, s) == {s}
    requires IsLatest(db.messages, s, last)
    requires value == Consolidated(db.dialogs[s], FinalMatch(db.matches, db.dialogs[s].matchId),
                                   PairOf(db.matches[db.dialogs[s].matchId]), last)
    ensures Target(db.(dialogs := db.dialogs[s := value])) == Target(db).(dialogs := Target(db).dialogs[s := value])
    ensures Rewritten(db.matches, db.dialogs, s) ==> Target(db.(dialogs := db.dialogs[s := value])) == Target(db)
    ensures DialogClass(db.matches, db.dialogs[s := value], s) == {s}
    ensures ReferencesClosed(db) ==> ReferencesClosed(db.(dialogs := db.dialogs[s := value]))
  {
    hide FinalDialogs, FinalMessages, FinalMatches, FinalLikes, FinalDialog, DialogClass, IsLatest, Rewritten, MatchClass;
    var final := FinalMessages(db.matches, db.dialogs, db.messages);
    LatestIsFinal(db.matches, db.dialogs, db.messages, s, last);
    FinalDialogsAfterUpdate(db.matches, db.dialogs, final, s, value);
    SameFinalMessages(db.matches, db.dialogs, db.matches, db.dialogs[s := value], db.messages);
    UpdateKeepsReferences(db, s, value);
  }

  /******* matches.deleteMany and matches.updateOne *******/

  // No dialog of match k is left to consolidate.
  ghost predicate DialogsSettled(ms: map<Id, Match>, ds: map<Id, Dialog>, final: map<Id, Message>, k: Id)
  {
    forall d :: d in ds && FinalMatch(ms, ds[d].matchId) == k ==>
      && DialogClass(ms, ds, d) == {d}
      && ds[d].matchId == k
      && FinalDialogValue(ms, ds, final, d) == ds[d]
  }

  lemma MatchClassesAfterDelete(ms: map<Id, Match>, k: Id, gone: set<Id>)
    requires k in ms && FinalMatch(ms, k) == k && gone == MatchClass(ms, k) - {k}
    ensures k in ms - gone && MatchClass(ms - gone, k) == {k}
    ensures forall n :: n in ms && n !in MatchClass(ms, k) ==> n in ms - gone && MatchClass(ms - gone, n) == MatchClass(ms, n)
    ensures forall n :: n !in gone ==> FinalMatch(ms - gone, n) == FinalMatch(ms, n)
    ensures forall n :: n in gone ==> n in ms && FinalMatch(ms, n) == k && n != k
  {
    FinalMatchIsLeast(ms, k);
    assert MatchClass(ms - gone, k) == {k};
    forall n | n in ms && n !in MatchClass(ms, k)
      ensures n in ms - gone && MatchClass(ms - gone, n) == MatchClass(ms, n)
    {
      assert MatchClass(ms - gone, n) == MatchClass(ms, n);
    }
  }

  lemma FinalMatchesAfterDelete(ms: map<Id, Match>, k: Id, gone: set<Id>)
    requires k in ms && FinalMatch(ms, k) == k && gone == MatchClass(ms, k) - {k}
    ensures FinalMatches(ms - gone) == FinalMatches(ms)[k := ms[k]]
  {
    MatchClassesAfterDelete(ms, k, gone);
    forall n | n in ms && n !in gone && n != k ensures MatchClass(ms - gone, n) == MatchClass(ms, n) {
      assert n !in MatchClass(ms, k);
    }
  }

  lemma FinalDialogsAfterMatchDelete(ms: map<Id, Match>, ds: map<Id, Dialog>, final: map<Id, Message>,
                                     k: Id, gone: set<Id>)
    requires k in ms && FinalMatch(ms, k) == k && gone == MatchClass(ms, k) - {k}
    requires DialogsSettled(ms, ds, final, k)
    ensures forall d :: d in ds ==> ds[d].matchId !in gone
    ensures forall d :: FinalDialog(ms - gone, ds, d) == FinalDialog(ms, ds, d)
    ensures FinalDialogs(ms - gone, ds, final) == FinalDialogs(ms, ds, final)
    ensures DialogsSettled(ms - gone, ds, final, k)
  {
    MatchClassesAfterDelete(ms, k, gone);
    SameDialogClasses(ms, ds, ms - gone, ds);
    forall d | d in ds ensures FinalDialogValue(ms - gone, ds, final, d) == FinalDialogValue(ms, ds, final, d) {
      if ds[d].matchId in MatchClass(ms, k) {
        assert ds[d].matchId == k;
      }
    }
  }

  // Deleting the duplicates of match k settles k as it now stands; nothing else changes.
  lemma MatchesDeleted(db: Database, k: Id, gone: set<Id>)
    requires k in db.matches && FinalMatch(db.matches, k) == k && gone == MatchClass(db.matches, k) - {k}
    requires DialogsSettled(db.matches, db.dialogs, Target(db).messages, k)
    ensures k in Target(db).matches
    ensures Target(db.(matches := db.matches - gone)) == Target(db).(matches := Target(db).matches[k := db.matches[k]])
    ensures ReferencesClosed(db) ==> ReferencesClosed(db.(matches := db.matches - gone))
    ensures DialogsSettled(db.matches - gone, db.dialogs, Target(db).messages, k)
  {
    FinalMatchesAfterDelete(db.matches, k, gone);
    FinalDialogsAfterMatchDelete(db.matches, db.dialogs, Target(db).messages, k, gone);
    SameFinalMessages(db.matches, db.dialogs, db.matches - gone, db.dialogs, db.messages);
  }

  lemma SameMatchClasses(ms: map<Id, Match>, k: Id, value: Match)
    requires k in ms && PairOf(value) == PairOf(ms[k])
    ensures forall n :: n in ms ==> MatchClass(ms[k := value], n) == MatchClass(ms, n)
    ensures forall n :: FinalMatch(ms[k := value], n) == FinalMatch(ms, n)
  {
    forall n | n in ms ensures MatchClass(ms[k := value], n) == MatchClass(ms, n) {
    }
  }

  lemma FinalDialogsAfterMatchUpdate(ms: map<Id, Match>, ds: map<Id, Dialog>, final: map<Id, Message>, k: Id, value: Match)
    requires k in ms && PairOf(value) == PairOf(ms[k])
    ensures forall d :: FinalDialog(ms[k := value], ds, d) == FinalDialog(ms, ds, d)
    ensures FinalDialogs(ms[k := value], ds, final) == FinalDialogs(ms, ds, final)
  {
    SameMatchClasses(ms, k, value);
    SameDialogClasses(ms, ds, ms[k := value], ds);
    forall d | d in ds
      ensures FinalDialogValue(ms[k := value], ds, final, d) == FinalDialogValue(ms, ds, final, d)
    {
      assert Rewritten(ms[k := value], ds, d) == Rewritten(ms, ds, d);
    }
  }

  // Turning a match round changes nothing but the match.
  lemma MatchUpdated(db: Database, k: Id, value: Match)
    requires k in db.matches && MatchClass(db.matches, k) == {k}
    requires PairOf(value) == PairOf(db.matches[k])
    ensures Target(db.(matches := db.matches[k := value])) == Target(db).(matches := Target(db).matches[k := value])
    ensures ReferencesClosed(db) ==> ReferencesClosed(db.(matches := db.matches[k := value]))
  {
    SameMatchClasses(db.matches, k, value);
    assert FinalMatch(db.matches, k) == k;
    assert FinalMatches(db.matches[k := value]) == FinalMatches(db.matches)[k := value];
    FinalDialogsAfterMatchUpdate(db.matches, db.dialogs, Target(db).messages, k, value);
    SameFinalMessages(db.matches, db.dialogs, db.matches[k := value], db.dialogs, db.messages);
  }
}
