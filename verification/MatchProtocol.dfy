// `likeUser` and `createDialog` as interleaved calls over shared collections.
//
// Each call is a small program with a point of control; every step does one atomic database
// operation. Calls start, advance and die in any order, and blocks may change between any two steps.
module MatchProtocol {
  import opened Documents

  type CallId = nat

  datatype Store = Store(likes: map<Id, Like>, matches: map<Id, Match>, dialogs: map<Id, Dialog>)

  datatype LikeResult = Rejected | NoMatchYet | Matched(matchId: Id, dialogId: Id)

  datatype LikePoint =
    | BlockCheck
    | LikeWrite
    | ReciprocalRead
    | MatchUpsert
    | DialogUpsert(matchId: Id)
    | Liked(result: LikeResult)

  datatype DialogPoint =
    | MatchRead
    | PartnerCheck(user1: Id, user2: Id)
    | DialogWrite(user1: Id, user2: Id)
    | Created(dialogId: Option<Id>)

  datatype Call =
    | LikeCall(from: Id, to: Id, like: LikePoint)
    | CreateCall(matchId: Id, user: Id, create: DialogPoint)

  datatype State = State(store: Store, blocks: set<(Id, Id)>, calls: map<CallId, Call>)

  datatype Action =
    | Begin(id: CallId, call: Call)
    | Advance(id: CallId)
    | Die(id: CallId)
    | ChangeBlocks

  /******* Atomic operations *******/

  predicate Blocked(blocks: set<(Id, Id)>, a: Id, b: Id) {
    (a, b) in blocks || (b, a) in blocks
  }

  predicate HasLike(likes: map<Id, Like>, a: Id, b: Id) {
    exists i :: i in likes && likes[i] == Like(a, b)
  }

  predicate HasMatch(ms: map<Id, Match>, user1: Id, user2: Id) {
    exists k :: k in ms && ms[k] == Match(user1, user2)
  }

  predicate HasDialog(ds: map<Id, Dialog>, matchId: Id) {
    exists d :: d in ds && ds[d].matchId == matchId
  }

  // An upsert: the document is there, or a new one with a fresh id is inserted.
  ghost predicate LikeUpserted(likes: map<Id, Like>, a: Id, b: Id, likes': map<Id, Like>) {
    if HasLike(likes, a, b) then likes' == likes
    else exists i: Id :: i !in likes && likes' == likes[i := Like(a, b)]
  }

  ghost predicate MatchUpserted(ms: map<Id, Match>, user1: Id, user2: Id, ms': map<Id, Match>, k: Id) {
    if HasMatch(ms, user1, user2) then ms' == ms && k in ms && ms[k] == Match(user1, user2)
    else k !in ms && ms' == ms[k := Match(user1, user2)]
  }

  ghost predicate DialogUpserted(ds: map<Id, Dialog>, matchId: Id, user1: Id, user2: Id, ds': map<Id, Dialog>, d: Id) {
    if HasDialog(ds, matchId) then ds' == ds && d in ds && ds[d].matchId == matchId
    else d !in ds && ds' == ds[d := Dialog(matchId, user1, user2, true, None)]
  }

  /******* Steps *******/

  // One step of a like: the call moves to `call'` and the store to `store'`.
  ghost predicate LikeStep(s: State, call: Call, store': Store, call': Call)
    requires call.LikeCall?
  {
    var pair := CanonicalPair(call.from, call.to);
    match call.like
    case BlockCheck =>
      && store' == s.store
      && call' == call.(like := if Blocked(s.blocks, call.from, call.to) then Liked(Rejected) else LikeWrite)
    case LikeWrite =>
      && store' == s.store.(likes := store'.likes)
      && LikeUpserted(s.store.likes, call.from, call.to, store'.likes)
      && call' == call.(like := ReciprocalRead)
    case ReciprocalRead =>
      && store' == s.store
      && call' == call.(like := if HasLike(s.store.likes, call.to, call.from) then MatchUpsert else Liked(NoMatchYet))
    case MatchUpsert =>
      && call'.LikeCall? && call' == call.(like := call'.like) && call'.like.DialogUpsert?
      && store' == s.store.(matches := store'.matches)
      && MatchUpserted(s.store.matches, pair.0, pair.1, store'.matches, call'.like.matchId)
    case DialogUpsert(k) =>
      && call'.LikeCall? && call' == call.(like := call'.like) && call'.like.Liked? && call'.like.result.Matched?
      && call'.like.result.matchId == k
      && store' == s.store.(dialogs := store'.dialogs)
      && DialogUpserted(s.store.dialogs, k, pair.0, pair.1, store'.dialogs, call'.like.result.dialogId)
    case Liked(_) => false
  }

  ghost predicate CreateStep(s: State, call: Call, store': Store, call': Call)
    requires call.CreateCall?
  {
    match call.create
    case MatchRead =>
      && store' == s.store
      && var ms := s.store.matches;
      call' == call.(create :=
        if call.matchId in ms && (ms[call.matchId].user1 == call.user || ms[call.matchId].user2 == call.user)
        then PartnerCheck(ms[call.matchId].user1, ms[call.matchId].user2)
        else Created(None))
    case PartnerCheck(user1, user2) =>
      && store' == s.store
      && var partner := if user1 == call.user then user2 else user1;
      call' == call.(create := if Blocked(s.blocks, call.user, partner) then Created(None) else DialogWrite(user1, user2))
    case DialogWrite(user1, user2) =>
      && call'.CreateCall? && call' == call.(create := call'.create) && call'.create.Created? && call'.create.dialogId.Some?
      && store' == s.store.(dialogs := store'.dialogs)
      && DialogUpserted(s.store.dialogs, call.matchId, user1, user2, store'.dialogs, call'.create.dialogId.value)
    case Created(_) => false
  }

  // The service does not reject a like of oneself, so its callers must.
  predicate Fresh(call: Call) {
    match call
    case LikeCall(from, to, at) => at == BlockCheck && from != to
    case CreateCall(_, _, at) => at == MatchRead
  }

  predicate Finished(call: Call) {
    match call
    case LikeCall(_, _, at) => at.Liked?
    case CreateCall(_, _, at) => at.Created?
  }

  ghost predicate Next(s: State, a: Action, s': State) {
    match a
    case Begin(id, call) => id !in s.calls && Fresh(call) && s' == s.(calls := s.calls[id := call])
    case Advance(id) =>
      && id in s.calls && id in s'.calls
      && s' == State(s'.store, s.blocks, s.calls[id := s'.calls[id]])
      && (if s.calls[id].LikeCall? then LikeStep(s, s.calls[id], s'.store, s'.calls[id])
          else CreateStep(s, s.calls[id], s'.store, s'.calls[id]))
    case Die(id) => id in s.calls && !Finished(s.calls[id]) && s' == s.(calls := s.calls - {id})
    case ChangeBlocks => s' == s.(blocks := s'.blocks)
  }

  /******* The invariant *******/

  ghost predicate StoreInv(store: Store) {
    LikesUnique(store.likes) && MatchesInv(store.likes, store.matches) && DialogsInv(store.matches, store.dialogs)
  }

  ghost predicate LikesUnique(likes: map<Id, Like>) {
    forall i, j :: i in likes && j in likes && likes[i] == likes[j] ==> i == j
  }

  ghost predicate MatchesInv(likes: map<Id, Like>, ms: map<Id, Match>) {
    && (forall k :: k in ms ==> MatchJustified(likes, ms[k]))
    && (forall k, n :: k in ms && n in ms && ms[k] == ms[n] ==> k == n)
  }

  ghost predicate DialogsInv(ms: map<Id, Match>, ds: map<Id, Dialog>) {
    && (forall d :: d in ds ==> DialogOfMatch(ms, ds[d]))
    && (forall d, e :: d in ds && e in ds && ds[d].matchId == ds[e].matchId ==> d == e)
  }

  ghost predicate MatchJustified(likes: map<Id, Like>, m: Match) {
    m.user1 < m.user2 && HasLike(likes, m.user1, m.user2) && HasLike(likes, m.user2, m.user1)
  }

  ghost predicate DialogOfMatch(ms: map<Id, Match>, dialog: Dialog) {
    && dialog.matchId in ms
    && dialog.user1 == ms[dialog.matchId].user1 && dialog.user2 == ms[dialog.matchId].user2
  }

  // What a call has established by the time it reaches its point.
  ghost predicate CallInv(store: Store, call: Call) {
    match call
    case LikeCall(from, to, at) =>
      var pair := CanonicalPair(from, to);
      && from != to
      && (match at
          case BlockCheck | LikeWrite => true
          case ReciprocalRead => HasLike(store.likes, from, to)
          case MatchUpsert => HasLike(store.likes, from, to) && HasLike(store.likes, to, from)
          case DialogUpsert(k) => k in store.matches && store.matches[k] == Match(pair.0, pair.1)
          case Liked(Rejected) => true
          case Liked(NoMatchYet) => HasLike(store.likes, from, to)
          case Liked(Matched(k, d)) =>
            && k in store.matches && store.matches[k] == Match(pair.0, pair.1)
            && d in store.dialogs && store.dialogs[d].matchId == k)
    case CreateCall(k, user, at) =>
      match at
      case MatchRead => true
      case PartnerCheck(user1, user2) => k in store.matches && store.matches[k] == Match(user1, user2)
      case DialogWrite(user1, user2) => k in store.matches && store.matches[k] == Match(user1, user2)
      case Created(None) => true
      case Created(Some(d)) => d in store.dialogs && store.dialogs[d].matchId == k
  }

  // Two calls liking in opposite directions cannot both have missed the other's like.
  predicate BothMissed(a: Call, b: Call) {
    && a.LikeCall? && b.LikeCall? && a.from == b.to && a.to == b.from
    && a.like == Liked(NoMatchYet) && b.like == Liked(NoMatchYet)
  }

  ghost predicate Inv(s: State) {
    && StoreInv(s.store)
    && (forall c :: c in s.calls ==> CallInv(s.store, s.calls[c]))
    && (forall c, e :: c in s.calls && e in s.calls ==> !BothMissed(s.calls[c], s.calls[e]))
  }

  /** Documents are only ever added. */
  ghost predicate Grows(a: Store, b: Store) {
    && (forall i :: i in a.likes ==> i in b.likes && b.likes[i] == a.likes[i])
    && (forall k :: k in a.matches ==> k in b.matches && b.matches[k] == a.matches[k])
    && (forall d :: d in a.dialogs ==> d in b.dialogs && b.dialogs[d] == a.dialogs[d])
  }

  lemma GrowthKeepsCalls(a: Store, b: Store, call: Call)
    requires Grows(a, b) && CallInv(a, call)
    ensures CallInv(b, call)
  {
    GrowthKeepsLikes(a, b);
  }

  lemma GrowthKeepsLikes(a: Store, b: Store)
    requires Grows(a, b)
    ensures forall x, y :: HasLike(a.likes, x, y) ==> HasLike(b.likes, x, y)
    ensures forall m :: MatchJustified(a.likes, m) ==> MatchJustified(b.likes, m)
  {
    forall x, y | HasLike(a.likes, x, y) ensures HasLike(b.likes, x, y) {
      var i :| i in a.likes && a.likes[i] == Like(x, y);
      assert i in b.likes && b.likes[i] == Like(x, y);
    }
  }

  lemma AdvanceGrows(s: State, id: CallId, s': State)
    requires Next(s, Advance(id), s')
    ensures Grows(s.store, s'.store)
  {
  }

  lemma LikeUpsertKeepsStore(store: Store, a: Id, b: Id, likes': map<Id, Like>)
    requires StoreInv(store) && LikeUpserted(store.likes, a, b, likes')
    ensures StoreInv(store.(likes := likes')) && HasLike(likes', a, b)
  {
    hide DialogsInv, DialogOfMatch;
    GrowthKeepsLikes(store, store.(likes := likes'));
    if !HasLike(store.likes, a, b) {
      var i: Id :| i !in store.likes && likes' == store.likes[i := Like(a, b)];
      assert likes'[i] == Like(a, b);
    }
  }

  lemma MatchUpsertKeepsStore(store: Store, user1: Id, user2: Id, ms': map<Id, Match>, k: Id)
    requires StoreInv(store) && MatchUpserted(store.matches, user1, user2, ms', k)
    requires MatchJustified(store.likes, Match(user1, user2))
    ensures StoreInv(store.(matches := ms')) && k in ms' && ms'[k] == Match(user1, user2)
  {
    hide LikesUnique, MatchJustified;
  }

  lemma DialogUpsertKeepsStore(store: Store, k: Id, user1: Id, user2: Id, ds': map<Id, Dialog>, d: Id)
    requires StoreInv(store) && DialogUpserted(store.dialogs, k, user1, user2, ds', d)
    requires k in store.matches && store.matches[k] == Match(user1, user2)
    ensures StoreInv(store.(dialogs := ds')) && d in ds' && ds'[d].matchId == k
  {
    hide LikesUnique, MatchesInv;
  }

  lemma LikeStepKeepsStore(s: State, call: Call, store': Store, call': Call)
    requires call.LikeCall? && LikeStep(s, call, store', call')
    requires StoreInv(s.store) && CallInv(s.store, call)
    ensures StoreInv(store') && CallInv(store', call')
  {
    hide StoreInv, LikeUpserted, MatchUpserted, DialogUpserted, HasLike;
    var pair := CanonicalPair(call.from, call.to);
    match call.like
    case LikeWrite => LikeUpsertKeepsStore(s.store, call.from, call.to, store'.likes);
    case MatchUpsert => MatchUpsertKeepsStore(s.store, pair.0, pair.1, store'.matches, call'.like.matchId);
    case DialogUpsert(k) => DialogUpsertKeepsStore(s.store, k, pair.0, pair.1, store'.dialogs, call'.like.result.dialogId);
    case _ =>
  }

  lemma CreateStepKeepsStore(s: State, call: Call, store': Store, call': Call)
    requires call.CreateCall? && CreateStep(s, call, store', call')
    requires StoreInv(s.store) && CallInv(s.store, call)
    ensures StoreInv(store') && CallInv(store', call')
  {
    hide StoreInv, DialogUpserted;
    match call.create
    case DialogWrite(user1, user2) =>
      DialogUpsertKeepsStore(s.store, call.matchId, user1, user2, store'.dialogs, call'.create.dialogId.value);
    case _ =>
  }

  lemma AdvanceKeepsStore(s: State, id: CallId, s': State)
    requires Inv(s) && Next(s, Advance(id), s')
    ensures StoreInv(s'.store) && CallInv(s'.store, s'.calls[id])
  {
    hide LikeStep, CreateStep, StoreInv, CallInv, BothMissed;
    if s.calls[id].LikeCall? {
      LikeStepKeepsStore(s, s.calls[id], s'.store, s'.calls[id]);
    } else {
      CreateStepKeepsStore(s, s.calls[id], s'.store, s'.calls[id]);
    }
  }

  // Whoever reads second finds the like of whoever read first.
  lemma NeverBothMissed(s: State, id: CallId, s': State, other: CallId)
    requires Next(s, Advance(id), s') && other in s.calls
    requires CallInv(s.store, s.calls[id]) && CallInv(s.store, s.calls[other])
    requires !BothMissed(s.calls[id], s.calls[other])
    ensures !BothMissed(s'.calls[id], s'.calls[other]) && !BothMissed(s'.calls[other], s'.calls[id])
  {
  }

  lemma StepKeepsInv(s: State, a: Action, s': State)
    requires Inv(s) && Next(s, a, s')
    ensures Inv(s') && Grows(s.store, s'.store)
  {
    hide StoreInv, LikeStep, CreateStep;
    if a.Advance? {
      AdvanceGrows(s, a.id, s');
      AdvanceKeepsStore(s, a.id, s');
      forall c | c in s'.calls ensures CallInv(s'.store, s'.calls[c]) {
        if c != a.id {
          GrowthKeepsCalls(s.store, s'.store, s.calls[c]);
        }
      }
      forall c, e | c in s'.calls && e in s'.calls ensures !BothMissed(s'.calls[c], s'.calls[e]) {
        assert !BothMissed(s.calls[c], s.calls[e]);
        if c == a.id {
          NeverBothMissed(s, c, s', e);
        } else if e == a.id {
          NeverBothMissed(s, e, s', c);
        }
      }
    }
  }

  /******* Runs *******/

  // Consecutive states of an execution, each reached by one action.
  ghost predicate IsRun(run: seq<State>, actions: seq<Action>) {
    && |run| == |actions| + 1
    && forall n :: 0 <= n < |actions| ==> Next(run[n], actions[n], run[n + 1])
  }

  // An execution begins with no call under way and consistent collections, for instance empty ones.
  ghost predicate Initial(s: State) {
    StoreInv(s.store) && s.calls == map[]
  }

  ghost predicate PairUnique(ms: map<Id, Match>) {
    forall k, n :: k in ms && n in ms && PairOf(ms[k]) == PairOf(ms[n]) ==> k == n
  }

  lemma {:induction false} InvHolds(run: seq<State>, actions: seq<Action>, n: nat)
    requires IsRun(run, actions) && Initial(run[0]) && n < |run|
    ensures Inv(run[n])
  {
    if n > 0 {
      InvHolds(run, actions, n - 1);
      StepKeepsInv(run[n - 1], actions[n - 1], run[n]);
    }
  }

  lemma {:induction false} StoreGrows(run: seq<State>, actions: seq<Action>, n: nat, m: nat)
    requires IsRun(run, actions) && n <= m < |run| && Initial(run[0])
    ensures Grows(run[n].store, run[m].store)
    decreases m - n
  {
    hide Next, Inv, Initial;
    if n < m {
      StoreGrows(run, actions, n, m - 1);
      InvHolds(run, actions, m - 1);
      StepKeepsInv(run[m - 1], actions[m - 1], run[m]);
      GrowsTransitive(run[n].store, run[m - 1].store, run[m].store);
    }
  }

  lemma GrowsTransitive(a: Store, b: Store, c: Store)
    requires Grows(a, b) && Grows(b, c)
    ensures Grows(a, c)
  {
  }

  /**
   * Safety: whatever the interleaving and wherever calls die, a direction has at most one like, a pair at most one
   * match and a match at most one dialog; a match has both likes behind it and a dialog joins its match's users.
   */
  lemma Safety(run: seq<State>, actions: seq<Action>, n: nat)
    requires IsRun(run, actions) && Initial(run[0]) && n < |run|
    ensures var store := run[n].store;
            && (forall i, j :: i in store.likes && j in store.likes && store.likes[i] == store.likes[j] ==> i == j)
            && PairUnique(store.matches)
            && (forall d, e :: d in store.dialogs && e in store.dialogs && store.dialogs[d].matchId == store.dialogs[e].matchId ==> d == e)
            && (forall k :: k in store.matches ==> MatchJustified(store.likes, store.matches[k]))
            && (forall d :: d in store.dialogs ==> DialogOfMatch(store.matches, store.dialogs[d]))
  {
    InvHolds(run, actions, n);
  }

  ghost predicate Completed(call: Call) {
    call.LikeCall? && (call.like == Liked(NoMatchYet) || (call.like.Liked? && call.like.result.Matched?))
  }

  ghost predicate Opposite(a: Call, b: Call) {
    a.LikeCall? && b.LikeCall? && a.from == b.to && a.to == b.from
  }

  /** When both users' likes complete, one of the calls returns a match, and the match and its dialog exist. */
  lemma MutualLikesMatch(run: seq<State>, actions: seq<Action>, n: nat, c: CallId, e: CallId)
    requires IsRun(run, actions) && Initial(run[0]) && n < |run|
    requires c in run[n].calls && e in run[n].calls && Opposite(run[n].calls[c], run[n].calls[e])
    requires Completed(run[n].calls[c]) && Completed(run[n].calls[e])
    ensures run[n].calls[c].like.result.Matched? || run[n].calls[e].like.result.Matched?
    ensures MatchedWithDialog(run[n].store, CanonicalPair(run[n].calls[c].from, run[n].calls[c].to))
  {
    InvHolds(run, actions, n);
    var s := run[n];
    hide Next, StoreInv, IsRun;
    assert !BothMissed(s.calls[c], s.calls[e]);
    assert CallInv(s.store, s.calls[c]) && CallInv(s.store, s.calls[e]);
    if s.calls[c].like.result.Matched? {
      ResultIsStored(s.store, s.calls[c]);
    } else {
      ResultIsStored(s.store, s.calls[e]);
    }
  }

  // The pair has a match, and the match a dialog.
  ghost predicate MatchedWithDialog(store: Store, pair: (Id, Id)) {
    exists k, d :: k in store.matches && store.matches[k] == Match(pair.0, pair.1)
                   && d in store.dialogs && store.dialogs[d].matchId == k
  }

  lemma ResultIsStored(store: Store, call: Call)
    requires CallInv(store, call) && call.LikeCall? && call.like.Liked? && call.like.result.Matched?
    ensures MatchedWithDialog(store, CanonicalPair(call.from, call.to))
  {
    var r := call.like.result;
    assert r.matchId in store.matches && r.dialogId in store.dialogs;
  }

  /** All calls for one pair that return a match name the same match and the same dialog, however far apart. */
  lemma MatchedAgree(run: seq<State>, actions: seq<Action>, n: nat, m: nat, c: CallId, e: CallId)
    requires IsRun(run, actions) && Initial(run[0]) && n <= m < |run|
    requires c in run[n].calls && e in run[m].calls
    requires run[n].calls[c].LikeCall? && run[m].calls[e].LikeCall?
    requires {run[n].calls[c].from, run[n].calls[c].to} == {run[m].calls[e].from, run[m].calls[e].to}
    requires run[n].calls[c].like.Liked? && run[n].calls[c].like.result.Matched?
    requires run[m].calls[e].like.Liked? && run[m].calls[e].like.result.Matched?
    ensures run[n].calls[c].like.result == run[m].calls[e].like.result
  {
    InvHolds(run, actions, n);
    InvHolds(run, actions, m);
    StoreGrows(run, actions, n, m);
    GrowthKeepsCalls(run[n].store, run[m].store, run[n].calls[c]);
    SameUsersSamePair(run[n].calls[c].from, run[n].calls[c].to, run[m].calls[e].from, run[m].calls[e].to);
    assert CallInv(run[m].store, run[m].calls[e]);
  }

  lemma SameUsersSamePair(a: Id, b: Id, c: Id, d: Id)
    requires {a, b} == {c, d} && a != b
    ensures CanonicalPair(a, b) == CanonicalPair(c, d)
  {
    assert a in {c, d} && b in {c, d};
  }

  // The call is a like between the two users that has not given up for want of the other's like.
  ghost predicate NotMissed(call: Call, pair: (Id, Id)) {
    call.LikeCall? && CanonicalPair(call.from, call.to) == pair ==> call.like != Liked(NoMatchYet)
  }

  lemma LikedPairIsNotMissed(s: State, a: Action, s': State, m: Match, e: CallId)
    requires Next(s, a, s') && MatchJustified(s.store.likes, m) && e in s'.calls
    requires e in s.calls ==> NotMissed(s.calls[e], (m.user1, m.user2))
    ensures NotMissed(s'.calls[e], (m.user1, m.user2))
  {
    if e in s.calls && s'.calls[e] != s.calls[e] {
      assert a == Advance(e);
    }
  }

  lemma {:induction false} RepeatedLikeDoesNotMiss(run: seq<State>, actions: seq<Action>, n: nat, m: nat, k: Id, e: CallId)
    requires IsRun(run, actions) && Initial(run[0]) && n <= m < |run|
    requires k in run[n].store.matches && e !in run[n].calls
    requires e in run[m].calls
    ensures NotMissed(run[m].calls[e], PairOf(run[n].store.matches[k]))
    decreases m - n
  {
    hide Next, Inv, Initial, Grows, MatchJustified, NotMissed;
    var before := run[n].store.matches[k];
    MatchIsJustified(run, actions, n, k);
    if n < m {
      if e in run[m - 1].calls {
        RepeatedLikeDoesNotMiss(run, actions, n, m - 1, k, e);
      }
      StoreGrows(run, actions, n, m - 1);
      GrowthKeepsLikes(run[n].store, run[m - 1].store);
      LikedPairIsNotMissed(run[m - 1], actions[m - 1], run[m], before, e);
    } else {
      assert false;
    }
  }

  lemma MatchIsJustified(run: seq<State>, actions: seq<Action>, n: nat, k: Id)
    requires IsRun(run, actions) && Initial(run[0]) && n < |run| && k in run[n].store.matches
    ensures MatchJustified(run[n].store.likes, run[n].store.matches[k])
    ensures (run[n].store.matches[k].user1, run[n].store.matches[k].user2) == PairOf(run[n].store.matches[k])
  {
    InvHolds(run, actions, n);
  }

  /**
   * Repair: once a match exists, with or without its dialog, a later like by either user that completes returns that
   * very match, unchanged, and a dialog of it.
   */
  lemma RepeatedLikeRepairs(run: seq<State>, actions: seq<Action>, n: nat, m: nat, k: Id, e: CallId)
    requires IsRun(run, actions) && Initial(run[0]) && n <= m < |run|
    requires k in run[n].store.matches && e !in run[n].calls && e in run[m].calls
    requires Completed(run[m].calls[e])
    requires CanonicalPair(run[m].calls[e].from, run[m].calls[e].to) == PairOf(run[n].store.matches[k])
    ensures var r := run[m].calls[e].like.result;
            var store := run[m].store;
            && r.Matched? && r.matchId == k && k in store.matches && store.matches[k] == run[n].store.matches[k]
            && r.dialogId in store.dialogs && store.dialogs[r.dialogId].matchId == k
  {
    hide Next, LikeStep, CreateStep, BothMissed;
    RepeatedLikeDoesNotMiss(run, actions, n, m, k, e);
    MatchIsJustified(run, actions, n, k);
    InvHolds(run, actions, m);
    StoreGrows(run, actions, n, m);
    assert CallInv(run[m].store, run[m].calls[e]);
  }

  /******* Matches in descending order *******/

  /**
   * A like's match upsert keeps one match per pair exactly when the pair has no match in descending order: the
   * unique index sees the order of the users.
   */
  lemma UpsertKeepsPairUnique(ms: map<Id, Match>, a: Id, b: Id, ms': map<Id, Match>, k: Id)
    requires PairUnique(ms) && a != b
    requires MatchUpserted(ms, CanonicalPair(a, b).0, CanonicalPair(a, b).1, ms', k)
    ensures PairUnique(ms') <==> !HasMatch(ms, CanonicalPair(a, b).1, CanonicalPair(a, b).0)
  {
    var pair := CanonicalPair(a, b);
    assert PairOf(Match(pair.0, pair.1)) == pair && PairOf(Match(pair.1, pair.0)) == pair;
    if HasMatch(ms, pair.1, pair.0) {
      var n :| n in ms && ms[n] == Match(pair.1, pair.0);
      assert n in ms' && k in ms' && PairOf(ms'[n]) == PairOf(ms'[k]);
    } else if !HasMatch(ms, pair.0, pair.1) {
      forall n | n in ms ensures PairOf(ms[n]) != pair {
        assert ms[n] != Match(pair.0, pair.1) && ms[n] != Match(pair.1, pair.0);
      }
    }
  }
}
