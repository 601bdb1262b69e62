// The service methods as written: one call running on its own, step by step, over the collections.
module MatchService {
  import opened Documents
  import opened MatchProtocol

  // The calls of a service method when it is the only one under way.
  const SELF: CallId := 0

  ghost function Alone(call: Call): map<CallId, Call> {
    map[SELF := call]
  }

  ghost predicate Extends(run: seq<State>, actions: seq<Action>, start: State, end: State) {
    IsRun(run, actions) && run[0] == start && run[|run| - 1] == end
  }

  lemma RunExtends(run: seq<State>, actions: seq<Action>, start: State, end: State, a: Action, next: State)
    requires Extends(run, actions, start, end) && Next(end, a, next)
    ensures Extends(run + [next], actions + [a], start, next)
  {
    var longer, more := run + [next], actions + [a];
    forall n | 0 <= n < |more| ensures Next(longer[n], more[n], longer[n + 1]) {
      if n < |actions| {
        assert Next(run[n], actions[n], run[n + 1]);
      }
    }
  }

  class MatchService {
    var likes: map<Id, Like>
    var matches: map<Id, Match>
    var dialogs: map<Id, Dialog>
    var blocks: set<(Id, Id)>

    // The execution of the protocol that the current call performs, and the point it has come to.
    ghost var run: seq<State>
    ghost var actions: seq<Action>
    ghost var call: Call

    constructor (store: Store, blocks: set<(Id, Id)>)
      ensures Collections() == store && this.blocks == blocks
    {
      likes, matches, dialogs := store.likes, store.matches, store.dialogs;
      this.blocks := blocks;
      run, actions := [], [];
    }

    function Collections(): Store
      reads this
    {
      Store(likes, matches, dialogs)
    }

    /** The call begun with the collections of `start` is at its present point. */
    ghost predicate Performing(start: State)
      reads this
    {
      start.calls == map[] && Extends(run, actions, start, State(Collections(), blocks, Alone(call)))
    }

    ghost method Enter(first: Call)
      requires Fresh(first)
      modifies `run, `actions, `call
      ensures Performing(State(Collections(), blocks, map[])) && call == first
    {
      var start := State(Collections(), blocks, map[]);
      var next := State(Collections(), blocks, Alone(first));
      RunExtends([start], [], start, start, Begin(SELF, first), next);
      call, run, actions := first, [start] + [next], [] + [Begin(SELF, first)];
    }

    // The operation just done, on the collections `before`, was one step of the call.
    ghost method Step(start: State, before: Store, next: Call)
      requires start.calls == map[] && Extends(run, actions, start, State(before, blocks, Alone(call)))
      requires call.LikeCall? ==> LikeStep(State(before, blocks, Alone(call)), call, Collections(), next)
      requires call.CreateCall? ==> CreateStep(State(before, blocks, Alone(call)), call, Collections(), next)
      modifies `run, `actions, `call
      ensures Performing(start) && call == next
    {
      var end := State(before, blocks, Alone(call));
      var after := State(Collections(), blocks, Alone(next));
      assert after.calls == end.calls[SELF := next];
      RunExtends(run, actions, start, end, Advance(SELF), after);
      call, run, actions := next, run + [after], actions + [Advance(SELF)];
    }

    /******* Upserts *******/

    method UpsertLike(userId: Id, likedUserId: Id, newId: Id)
      requires newId !in likes && userId != likedUserId
      modifies `likes
      ensures LikeUpserted(old(likes), userId, likedUserId, likes)
      ensures if exists i :: i in old(likes) && old(likes)[i] == Like(userId, likedUserId) then likes == old(likes)
              else likes == old(likes)[newId := Like(userId, likedUserId)]
    {
      if i :| i in likes && likes[i] == Like(userId, likedUserId) {
      } else {
        likes := likes[newId := Like(userId, likedUserId)];
      }
    }

    method UpsertMatch(user1: Id, user2: Id, newId: Id) returns (k: Id)
      requires newId !in matches
      modifies `matches
      ensures MatchUpserted(old(matches), user1, user2, matches, k)
      ensures k in matches && matches[k].user1 == user1 && matches[k].user2 == user2
      ensures if exists n :: n in old(matches) && old(matches)[n] == Match(user1, user2) then matches == old(matches)
              else k == newId && matches == old(matches)[newId := Match(user1, user2)]
    {
      if found :| found in matches && matches[found] == Match(user1, user2) {
        k := found;
      } else {
        k := newId;
        matches := matches[newId := Match(user1, user2)];
      }
    }

    method UpsertDialog(matchId: Id, user1: Id, user2: Id, newId: Id) returns (d: Id)
      requires newId !in dialogs
      modifies `dialogs
      ensures DialogUpserted(old(dialogs), matchId, user1, user2, dialogs, d)
      ensures d in dialogs && dialogs[d].matchId == matchId
      ensures if exists e :: e in old(dialogs) && old(dialogs)[e].matchId == matchId then dialogs == old(dialogs)
              else d == newId && dialogs == old(dialogs)[newId := Dialog(matchId, user1, user2, true, None)]
    {
      if found :| found in dialogs && dialogs[found].matchId == matchId {
        d := found;
      } else {
        d := newId;
        dialogs := dialogs[newId := Dialog(matchId, user1, user2, true, None)];
      }
    }

    /******* likeUser and createDialog *******/

    /** Performs an execution of the protocol; alone, it matches exactly when the other user's like is there. */
    method LikeUser(userId: Id, likedUserId: Id, newLikeId: Id, newMatchId: Id, newDialogId: Id) returns (result: LikeResult)
      requires userId != likedUserId
      requires newLikeId !in likes && newMatchId !in matches && newDialogId !in dialogs
      modifies this
      ensures Performing(State(old(Collections()), old(blocks), map[])) && blocks == old(blocks)
      ensures call == LikeCall(userId, likedUserId, Liked(result))
      ensures result.Rejected? <==> (userId, likedUserId) in blocks || (likedUserId, userId) in blocks
      ensures result.Rejected? ==> Collections() == old(Collections())
      ensures !result.Rejected? ==>
                if exists i :: i in old(likes) && old(likes)[i] == Like(userId, likedUserId) then likes == old(likes)
                else likes == old(likes)[newLikeId := Like(userId, likedUserId)]
      ensures result.Matched? <==> !result.Rejected? && exists i :: i in old(likes) && old(likes)[i] == Like(likedUserId, userId)
      ensures !result.Matched? ==> matches == old(matches) && dialogs == old(dialogs)
      ensures result.Matched? ==>
                var m := if userId < likedUserId then Match(userId, likedUserId) else Match(likedUserId, userId);
                && result.matchId in matches && matches[result.matchId] == m
                && (if exists n :: n in old(matches) && old(matches)[n] == m then matches == old(matches)
                    else matches == old(matches)[newMatchId := m])
      ensures result.Matched? ==>
                var m := matches[result.matchId];
                && result.dialogId in dialogs && dialogs[result.dialogId].matchId == result.matchId
                && (if exists e :: e in old(dialogs) && old(dialogs)[e].matchId == result.matchId then dialogs == old(dialogs)
                    else dialogs == old(dialogs)[newDialogId := Dialog(result.matchId, m.user1, m.user2, true, None)])
    {
      hide Extends, LikeUpserted, MatchUpserted, DialogUpserted;
      ghost var start := State(Collections(), blocks, map[]);
      Enter(LikeCall(userId, likedUserId, BlockCheck));

      if Blocked(blocks, userId, likedUserId) {
        Step(start, Collections(), call.(like := Liked(Rejected)));
        return Rejected;
      }
      Step(start, Collections(), call.(like := LikeWrite));

      ghost var before := Collections();
      UpsertLike(userId, likedUserId, newLikeId);
      Step(start, before, call.(like := ReciprocalRead));
      assert forall i :: i in before.likes ==> i in likes && likes[i] == before.likes[i];

      if !HasReciprocal(userId, likedUserId) {
        Step(start, Collections(), call.(like := Liked(NoMatchYet)));
        return NoMatchYet;
      }
      Step(start, Collections(), call.(like := MatchUpsert));

      var k, d := EnsureMatchWithDialog(userId, likedUserId, newMatchId, newDialogId, start);
      return Matched(k, d);
    }

    /** The match of the two users in order and a dialog of it, each found or inserted. */
    method EnsureMatchWithDialog(userId: Id, otherUserId: Id, newMatchId: Id, newDialogId: Id, ghost start: State)
      returns (k: Id, d: Id)
      requires Performing(start) && call == LikeCall(userId, otherUserId, MatchUpsert)
      requires newMatchId !in matches && newDialogId !in dialogs
      modifies `matches, `dialogs, `run, `actions, `call
      ensures Performing(start) && call == LikeCall(userId, otherUserId, Liked(Matched(k, d)))
      ensures var m := if userId < otherUserId then Match(userId, otherUserId) else Match(otherUserId, userId);
              && k in matches && matches[k] == m
              && (if exists n :: n in old(matches) && old(matches)[n] == m then matches == old(matches)
                  else matches == old(matches)[newMatchId := m])
      ensures d in dialogs && dialogs[d].matchId == k
      ensures if exists e :: e in old(dialogs) && old(dialogs)[e].matchId == k then dialogs == old(dialogs)
              else dialogs == old(dialogs)[newDialogId := Dialog(k, matches[k].user1, matches[k].user2, true, None)]
    {
      hide Extends, MatchUpserted, DialogUpserted;
      var pair := CanonicalPair(userId, otherUserId);
      ghost var before := Collections();
      k := UpsertMatch(pair.0, pair.1, newMatchId);
      Step(start, before, call.(like := DialogUpsert(k)));

      before := Collections();
      d := UpsertDialog(k, pair.0, pair.1, newDialogId);
      Step(start, before, call.(like := Liked(Matched(k, d))));
    }

    predicate HasReciprocal(userId: Id, likedUserId: Id)
      reads this
    {
      exists i :: i in likes && likes[i] == Like(likedUserId, userId)
    }

    /** Performs an execution of the protocol; alone, it creates or finds a dialog unless access is denied. */
    method CreateDialog(matchId: Id, userId: Id, newDialogId: Id) returns (created: Option<Id>)
      requires newDialogId !in dialogs
      modifies this
      ensures Performing(State(old(Collections()), old(blocks), map[])) && blocks == old(blocks)
      ensures call == CreateCall(matchId, userId, Created(created))
      ensures likes == old(likes) && matches == old(matches)
      ensures created.Some? <==>
              && matchId in matches && (userId == matches[matchId].user1 || userId == matches[matchId].user2)
              && (matches[matchId].user1, matches[matchId].user2) !in blocks
              && (matches[matchId].user2, matches[matchId].user1) !in blocks
      ensures created.None? ==> dialogs == old(dialogs)
      ensures created.Some? ==>
                var m := matches[matchId];
                && created.value in dialogs && dialogs[created.value].matchId == matchId
                && (if exists e :: e in old(dialogs) && old(dialogs)[e].matchId == matchId then dialogs == old(dialogs)
                    else dialogs == old(dialogs)[newDialogId := Dialog(matchId, m.user1, m.user2, true, None)])
    {
      hide Extends, DialogUpserted;
      ghost var start := State(Collections(), blocks, map[]);
      Enter(CreateCall(matchId, userId, MatchRead));

      if matchId !in matches || (matches[matchId].user1 != userId && matches[matchId].user2 != userId) {
        Step(start, Collections(), call.(create := Created(None)));
        return None;
      }
      var user1, user2 := matches[matchId].user1, matches[matchId].user2;
      Step(start, Collections(), call.(create := PartnerCheck(user1, user2)));

      var partnerId := if user1 == userId then user2 else user1;
      if Blocked(blocks, userId, partnerId) {
        Step(start, Collections(), call.(create := Created(None)));
        return None;
      }
      Step(start, Collections(), call.(create := DialogWrite(user1, user2)));

      ghost var before := Collections();
      var d := UpsertDialog(matchId, user1, user2, newDialogId);
      created := Some(d);
      Step(start, before, call.(create := Created(created)));
    }
  }

  // The upsert adds the like and no other.
  lemma UpsertedIsThere(likes: map<Id, Like>, a: Id, b: Id, likes': map<Id, Like>)
    requires LikeUpserted(likes, a, b, likes') && a != b
    ensures HasLike(likes', a, b)
    ensures HasLike(likes', b, a) <==> HasLike(likes, b, a)
  {
    if !HasLike(likes, a, b) {
      var i: Id :| i !in likes && likes' == likes[i := Like(a, b)];
      assert likes'[i] == Like(a, b);
      if n :| n in likes && likes[n] == Like(b, a) {
        assert likes'[n] == Like(b, a);
      }
    }
  }
}
