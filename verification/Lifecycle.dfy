// How the components fit: what one leaves behind is what the next one needs.
module Lifecycle {
  import opened Documents
  import opened MatchProtocol
  import MigrationSpec
  import MigrationSteps
  import MigrationTheorems

  function DatabaseOf(store: Store, messages: map<Id, Message>): Database {
    Database(store.likes, store.matches, store.dialogs, messages)
  }

  /** Likes and dialog creation keep the invariants that account deletion rests on. */
  lemma ProtocolKeepsWellFormed(s: State, a: Action, s': State, messages: map<Id, Message>)
    requires Inv(s) && Next(s, a, s') && WellFormed(DatabaseOf(s.store, messages))
    ensures WellFormed(DatabaseOf(s'.store, messages))
  {
    StepKeepsInv(s, a, s');
    hide Next, CallInv, BothMissed, StoreInv, WellFormed, Grows;
    GrowthKeepsWellFormed(s.store, s'.store, messages);
  }

  lemma GrowthKeepsWellFormed(before: Store, after: Store, messages: map<Id, Message>)
    requires Grows(before, after) && StoreInv(after) && WellFormed(DatabaseOf(before, messages))
    ensures WellFormed(DatabaseOf(after, messages))
  {
    DialogsJoinTheirMatch(after);
    hide StoreInv;
  }

  lemma DialogsJoinTheirMatch(store: Store)
    requires StoreInv(store)
    ensures forall d :: d in store.dialogs ==>
              && store.dialogs[d].matchId in store.matches
              && CanonicalPair(store.dialogs[d].user1, store.dialogs[d].user2) == PairOf(store.matches[store.dialogs[d].matchId])
  {
    forall d | d in store.dialogs ensures DialogOfMatch(store.matches, store.dialogs[d]) {
    }
  }

  ghost predicate Descending(m: Match) {
    m.user1 > m.user2
  }

  // The only match of its two users.
  ghost predicate Lone(ms: map<Id, Match>, k: Id)
    requires k in ms
  {
    forall n :: n in ms && PairOf(ms[n]) == PairOf(ms[k]) ==> n == k
  }

  /** The migration leaves a match in descending order exactly where that match was its pair's only one and descending. */
  lemma DescendingAfterMigration(db: Database, k: Id)
    ensures k in MigrationSpec.Target(db).matches && Descending(MigrationSpec.Target(db).matches[k]) <==>
            k in db.matches && Descending(db.matches[k]) && Lone(db.matches, k)
  {
    MigrationTheorems.OldestMatchSurvives(db, k);
    if k in db.matches {
      MigrationTheorems.LoneMatchUntouched(db, k);
    }
    hide MigrationSpec.Target;
  }

  /**
   * After the migration, a like between two users can add a second match for their pair exactly when the database
   * held a lone match of theirs in descending order.
   */
  lemma LikeAfterMigration(db: Database, a: Id, b: Id, ms': map<Id, Match>, k: Id)
    requires a != b
    requires MatchUpserted(MigrationSpec.Target(db).matches, CanonicalPair(a, b).0, CanonicalPair(a, b).1, ms', k)
    ensures PairUnique(ms') <==>
            !exists n :: n in db.matches && Lone(db.matches, n) && Descending(db.matches[n]) && PairOf(db.matches[n]) == CanonicalPair(a, b)
  {
    hide MigrationSpec.Target;
    var ms, pair := MigrationSpec.Target(db).matches, CanonicalPair(a, b);
    MigrationTheorems.TargetIsClean(db);
    UpsertKeepsPairUnique(ms, a, b, ms', k);
    if HasMatch(ms, pair.1, pair.0) {
      var n :| n in ms && ms[n] == Match(pair.1, pair.0);
      DescendingAfterMigration(db, n);
      MigrationTheorems.LoneMatchUntouched(db, n);
      assert PairOf(db.matches[n]) == pair;
    }
    if n :| n in db.matches && Lone(db.matches, n) && Descending(db.matches[n]) && PairOf(db.matches[n]) == pair {
      DescendingAfterMigration(db, n);
      MigrationTheorems.LoneMatchUntouched(db, n);
      assert ms[n] == Match(pair.1, pair.0);
    }
  }

  // The points of a like of a pair with both likes present, up to its match upsert.
  function LikeStates(store: Store, a: Id, b: Id, k: Id): seq<State> {
    var doubled := store.(matches := store.matches[k := Match(CanonicalPair(a, b).0, CanonicalPair(a, b).1)]);
    [State(store, {}, map[]), State(store, {}, map[0 := LikeCall(a, b, BlockCheck)]),
     State(store, {}, map[0 := LikeCall(a, b, LikeWrite)]), State(store, {}, map[0 := LikeCall(a, b, ReciprocalRead)]),
     State(store, {}, map[0 := LikeCall(a, b, MatchUpsert)]), State(doubled, {}, map[0 := LikeCall(a, b, DialogUpsert(k))])]
  }

  function LikeActions(a: Id, b: Id): seq<Action> {
    [Begin(0, LikeCall(a, b, BlockCheck)), Advance(0), Advance(0), Advance(0), Advance(0)]
  }

  lemma LikeRun(store: Store, a: Id, b: Id, k: Id)
    requires a != b && HasLike(store.likes, a, b) && HasLike(store.likes, b, a)
    requires k !in store.matches && !HasMatch(store.matches, CanonicalPair(a, b).0, CanonicalPair(a, b).1)
    ensures IsRun(LikeStates(store, a, b, k), LikeActions(a, b))
  {
    hide HasLike, HasMatch;
    var run, actions := LikeStates(store, a, b, k), LikeActions(a, b);
    assert forall p: LikePoint :: map[0 := LikeCall(a, b, LikeWrite)][0 := LikeCall(a, b, p)] == map[0 := LikeCall(a, b, p)];
    forall n | 0 <= n < |actions| ensures Next(run[n], actions[n], run[n + 1]) {
    }
  }

  /**
   * In every database with a lone descending match of two users who like each other, the next like of theirs after the
   * migration, with nothing else going on, runs into a second match of the pair.
   */
  lemma NextLikeDoublesMatch(db: Database, n: Id, a: Id, b: Id) returns (run: seq<State>, actions: seq<Action>, k: Id)
    requires n in db.matches && Lone(db.matches, n) && Descending(db.matches[n]) && PairOf(db.matches[n]) == CanonicalPair(a, b)
    requires HasLike(db.likes, a, b) && HasLike(db.likes, b, a)
    ensures IsRun(run, actions) && run != [] && DatabaseOf(run[0].store, MigrationSpec.Target(db).messages) == MigrationSpec.Target(db)
    ensures actions != [] && actions[0] == Begin(0, LikeCall(a, b, BlockCheck)) && forall m :: 0 < m < |actions| ==> actions[m] == Advance(0)
    ensures var ms := run[|run| - 1].store.matches;
            n in ms && k in ms && n != k && PairOf(ms[n]) == PairOf(ms[k]) == CanonicalPair(a, b)
  {
    var final := MigrationSpec.Target(db);
    var store, pair := Store(final.likes, final.matches, final.dialogs), CanonicalPair(a, b);
    DescendingAfterMigration(db, n);
    MigrationTheorems.LoneMatchUntouched(db, n);
    LikeSurvives(db, a, b);
    LikeSurvives(db, b, a);
    MigrationTheorems.TargetIsClean(db);
    hide MigrationSpec.Target;
    assert !HasMatch(store.matches, pair.0, pair.1) by {
      if m :| m in store.matches && store.matches[m] == Match(pair.0, pair.1) {
        assert PairOf(store.matches[m]) == PairOf(store.matches[n]);
      }
    }
    k := NewId(store.matches.Keys);
    LikeRun(store, a, b, k);
    run, actions := LikeStates(store, a, b, k), LikeActions(a, b);
    assert PairOf(Match(pair.0, pair.1)) == pair;
  }

  lemma {:induction false} NewId(ids: set<Id>) returns (k: Id)
    ensures forall i :: i in ids ==> i < k
  {
    if ids == {} {
      k := 0;
    } else {
      var i :| i in ids;
      k := NewId(ids - {i});
      k := k + i + 1;
      assert forall j :: j in ids ==> j == i || j in ids - {i};
    }
  }

  // The migration drops no direction.
  lemma LikeSurvives(db: Database, a: Id, b: Id)
    requires HasLike(db.likes, a, b)
    ensures HasLike(MigrationSpec.Target(db).likes, a, b)
  {
    var i :| i in db.likes && db.likes[i] == Like(a, b);
    var j := MigrationSteps.OldestLike(db.likes, i);
    MigrationTheorems.OldestLikeSurvives(db, j);
    assert MigrationSpec.Target(db).likes[j] == Like(a, b);
  }

  /** Such a database exists, and a like between its two users ends in two matches of theirs. */
  lemma SecondMatchAfterMigration() returns (db: Database, run: seq<State>, actions: seq<Action>)
    ensures IsRun(run, actions) && run != [] && DatabaseOf(run[0].store, map[]) == MigrationSpec.Target(db)
    ensures PairUnique(run[0].store.matches) && !PairUnique(run[|run| - 1].store.matches)
  {
    db := Database(map[100 := Like(1, 2), 101 := Like(2, 1)], map[7 := Match(2, 1)], map[], map[]);
    MigrationTheorems.CleanIsFinal(db);
    hide MigrationSpec.Target;
    assert CanonicalPair(1, 2) == (1, 2) && PairOf(Match(2, 1)) == (1, 2);
    assert db.likes[100] == Like(1, 2) && db.likes[101] == Like(2, 1);
    var k;
    run, actions, k := NextLikeDoublesMatch(db, 7, 1, 2);
  }
}
