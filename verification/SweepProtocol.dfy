// The sweep beside photo requests: it lists, reads and deletes step by step while requests go on.
module SweepProtocol {
  import opened Documents
  import opened Ordering
  import opened PublicUrls
  import opened PhotoProtocol
  import opened OrphanSweep

  datatype Sweep =
    | Idle
    // `due` are the objects the listing still owes: those there from the beginning.
    | Auditing(due: set<string>, listed: set<string>, unread: set<UserId>, referenced: set<string>)
    | Sweeping(left: set<string>)

  datatype World = World(state: State, sweep: Sweep)

  datatype Event =
    | Request(action: Action)
    | Start
    | ListPage(keys: set<string>)
    | ReadUser(user: UserId)
    | EndAudit
    | DeleteBatch(batch: set<string>, call: Call)
    | Stop

  ghost function UserObjects(objects: set<string>): set<string> {
    set key | key in objects && StartsWith(key, USERS_PREFIX)
  }

  function Min(a: nat, b: nat): nat {
    if a < b then a else b
  }

  // The sweep has come across the key, so that no new uuid makes it again.
  predicate Met(sweep: Sweep, key: string) {
    match sweep
    case Idle => false
    case Auditing(due, listed, _, _) => key in due || key in listed
    case Sweeping(left) => key in left
  }

  // A page lists stored objects; one stored or deleted while the listing goes on may or may not be on a page.
  ghost predicate Next(configured: string, w: World, e: Event, w': World) {
    var photos, objects := w.state.photos, w.state.objects;
    match e
    case Request(a) =>
      && PhotoProtocol.Next(StripSlash(configured), w.state, a, w'.state) && w'.sweep == w.sweep
      && (a.PutObject? ==> !Met(w.sweep, PhotoKey(a.user, a.uuid)))
    case Start => w.sweep.Idle? && w' == w.(sweep := Auditing(UserObjects(objects), {}, photos.Keys, {}))
    case ListPage(keys) =>
      && w.sweep.Auditing? && keys <= UserObjects(objects)
      && w' == w.(sweep := w.sweep.(due := w.sweep.due - keys, listed := w.sweep.listed + keys))
    case ReadUser(u) =>
      && w.sweep.Auditing? && u in w.sweep.unread && u in photos
      && w' == w.(sweep := w.sweep.(unread := w.sweep.unread - {u},
                                    referenced := w.sweep.referenced + ReferencedBy(configured, photos[u])))
    case EndAudit =>
      && w.sweep.Auditing? && w.sweep.unread == {} && w.sweep.due !! objects
      && w' == w.(sweep := Sweeping(w.sweep.listed - w.sweep.referenced))
    case DeleteBatch(batch, call) =>
      && w.sweep.Sweeping? && batch <= w.sweep.left && batch != {} && |batch| == Min(DELETE_BATCH_SIZE, |w.sweep.left|)
      && w' == World(if call == Done || call.applied then w.state.(objects := objects - batch) else w.state,
                     if call == Done then Sweeping(w.sweep.left - batch) else Idle)
    case Stop => w' == w.(sweep := Idle)
  }

  ghost predicate IsRun(configured: string, run: seq<World>, events: seq<Event>) {
    && |run| == |events| + 1
    && forall n :: 0 <= n < |events| ==> Next(configured, run[n], events[n], run[n + 1])
  }

  // No upload is under way.
  predicate NoUpload(s: State) {
    forall u :: u in s.requests ==> !s.requests[u].Uploading? && !s.requests[u].Pushing?
  }

  // The keys lost to rollbacks of listed photos, as in a run of requests alone, with those lost before.
  function LostSince(lost: set<string>, run: seq<World>, events: seq<Event>, n: nat): set<string>
    requires |run| == |events| + 1 && n < |run|
  {
    if n == 0 then lost
    else if events[n - 1].Request? then
      LostAfter(run[n - 1].state, events[n - 1].action, run[n].state, LostSince(lost, run, events, n - 1))
    else LostSince(lost, run, events, n - 1)
  }

  /******* What keeps a sweep harmless *******/

  // The user's list has the key, or an upload of the user is going to put it there.
  ghost predicate WantedBy(base: string, s: State, u: UserId, key: string) {
    || (u in s.photos && key in Keys(base, s.photos[u]))
    || (u in s.requests && (s.requests[u].Uploading? || s.requests[u].Pushing?) && key in Keys(base, s.requests[u].urls))
  }

  ghost predicate Wanted(base: string, s: State, key: string) {
    exists u :: WantedBy(base, s, u, key)
  }

  /** Nothing that the sweep is going to delete is wanted, but for what is lost already. */
  ghost predicate Spared(base: string, w: World, lost: set<string>)
    requires w.sweep.Sweeping?
  {
    forall key :: key in w.sweep.left && key !in lost ==> !Wanted(base, w.state, key)
  }

  // The lists read so far refer to nothing but what was noted, and nothing doomed is wanted.
  ghost predicate SweepInv(configured: string, w: World, lost: set<string>) {
    var photos := w.state.photos;
    match w.sweep
    case Idle => true
    case Auditing(_, listed, unread, referenced) =>
      && "" !in listed
      && forall u, key :: u in photos && u !in unread && key in Keys(StripSlash(configured), photos[u]) && key != "" ==>
           key in referenced
    case Sweeping(_) => Spared(StripSlash(configured), w, lost)
  }

  ghost predicate WorldInv(configured: string, w: World, lost: set<string>) {
    && Inv(StripSlash(configured), Restored(w.state, lost)) && lost !! w.state.objects
    && SweepInv(configured, w, lost)
  }

  // Without a push no list gains a key.
  lemma ListsOnlyShrink(base: string, s: State, a: Action, s': State, lost: set<string>)
    requires Inv(base, Restored(s, lost)) && PhotoProtocol.Next(base, s, a, s') && NoUpload(s)
    ensures s'.photos.Keys == s.photos.Keys
    ensures forall u :: u in s.photos ==> Keys(base, s'.photos[u]) <= Keys(base, s.photos[u])
  {
    hide Linked, Unshared, Disjoint, Pending, FreshKey;
    if a.PullUrl? {
      KeysWithout(base, s.photos[a.user], s.requests[a.user].url);
    } else if a.WriteOrder? {
      assert RequestInv(base, Restored(s, lost), a.user);
      OrderHasFewerKeys(base, s.photos[a.user], s.requests[a.user].order);
    }
  }

  lemma ShrinkingKeepsAudit(configured: string, w: World, w': World, lost: set<string>, lost': set<string>)
    requires SweepInv(configured, w, lost) && w.sweep.Auditing?
    requires w'.sweep == w.sweep && w'.state.photos.Keys == w.state.photos.Keys
    requires forall u :: u in w.state.photos ==>
               Keys(StripSlash(configured), w'.state.photos[u]) <= Keys(StripSlash(configured), w.state.photos[u])
    ensures SweepInv(configured, w', lost')
  {
    hide Keys;
  }

  lemma OthersWantTheSame(base: string, s: State, a: Action, s': State, v: UserId, key: string)
    requires PhotoProtocol.Next(base, s, a, s') && v != a.user
    ensures WantedBy(base, s', v, key) <==> WantedBy(base, s, v, key)
  {
    hide Keys, FreshKey;
  }

  lemma OwnWish(base: string, s: State, a: Action, s': State, lost: set<string>, key: string)
    requires Inv(base, Restored(s, lost)) && PhotoProtocol.Next(base, s, a, s')
    requires WantedBy(base, s', a.user, key) && !WantedBy(base, s, a.user, key)
    ensures a.PutObject? && key == PhotoKey(a.user, a.uuid)
  {
    var u := a.user;
    hide Keys, Linked, Unshared, Disjoint, Pending, FreshKey;
    match a
    case PullUrl(_, _) => KeysWithout(base, s.photos[u], s.requests[u].url);
    case WriteOrder(_, _) =>
      assert RequestInv(base, Restored(s, lost), u);
      OrderHasFewerKeys(base, s.photos[u], s.requests[u].order);
    case PushUrls(_, _) => KeysOfAppend(base, s.photos[u], s.requests[u].urls);
    case PutObject(_, _, _) =>
      KeysOfAppend(base, s.requests[u].urls, [GetPublicUrl(base, PhotoKey(u, a.uuid))]);
      KeysOfOne(base, PhotoKey(u, a.uuid));
    case BeginUpload(_, _) => KeysOfNone(base);
    case _ =>
  }

  // Only a put makes a key wanted, and that key is new.
  lemma OnlyPutsAreWanted(base: string, s: State, a: Action, s': State, lost: set<string>, key: string)
    requires Inv(base, Restored(s, lost)) && PhotoProtocol.Next(base, s, a, s')
    requires Wanted(base, s', key) && !Wanted(base, s, key)
    ensures a.PutObject? && key == PhotoKey(a.user, a.uuid)
  {
    hide WantedBy, PhotoProtocol.Next, Inv;
    var u :| WantedBy(base, s', u, key);
    assert !WantedBy(base, s, u, key);
    if u != a.user {
      OthersWantTheSame(base, s, a, s', u, key);
    } else {
      OwnWish(base, s, a, s', lost, key);
    }
  }

  lemma RequestKeepsSpared(base: string, w: World, a: Action, w': World, lost: set<string>)
    requires Inv(base, Restored(w.state, lost)) && lost !! w.state.objects && w.sweep.Sweeping? && w'.sweep == w.sweep
    requires PhotoProtocol.Next(base, w.state, a, w'.state) && Spared(base, w, lost)
    requires a.PutObject? ==> PhotoKey(a.user, a.uuid) !in w.sweep.left
    ensures Spared(base, w', LostAfter(w.state, a, w'.state, lost))
  {
    hide PhotoProtocol.Next, Inv, Wanted;
    var lost' := LostAfter(w.state, a, w'.state, lost);
    forall key | key in w.sweep.left && key !in lost' ensures !Wanted(base, w'.state, key) {
      if key in lost && key in w'.state.objects {
        OnlyPutStores(base, w.state, a, w'.state, key);
      }
      if Wanted(base, w'.state, key) && !Wanted(base, w.state, key) {
        OnlyPutsAreWanted(base, w.state, a, w'.state, lost, key);
      }
    }
  }

  lemma OnlyPutStores(base: string, s: State, a: Action, s': State, key: string)
    requires PhotoProtocol.Next(base, s, a, s') && key in s'.objects && key !in s.objects
    ensures a.PutObject? && key == PhotoKey(a.user, a.uuid)
  {
  }

  lemma ReferencedByIsKeys(configured: string, urls: seq<Url>)
    ensures ReferencedBy(configured, urls) == Keys(StripSlash(configured), urls) - {""}
  {
  }

  lemma SweepStepKeepsSweepInv(configured: string, w: World, e: Event, w': World, lost: set<string>)
    requires Next(configured, w, e, w') && !e.Request? && SweepInv(configured, w, lost)
    requires w.sweep.Auditing? ==> NoUpload(w.state)
    ensures SweepInv(configured, w', lost)
  {
    if e.ReadUser? {
      ReferencedByIsKeys(configured, w.state.photos[e.user]);
    }
    hide Keys, ReferencedBy;
    if w'.sweep.Sweeping? {
      var base := StripSlash(configured);
      forall key, u | key in w'.sweep.left && key !in lost ensures !WantedBy(base, w'.state, u, key) {
        if w.sweep.Sweeping? {
          assert !Wanted(base, w.state, key);
          assert WantedBy(base, w'.state, u, key) <==> WantedBy(base, w.state, u, key);
        }
      }
    }
  }

  // Objects that are not wanted, or lost already, may go.
  lemma BatchKeepsInv(base: string, s: State, lost: set<string>, batch: set<string>)
    requires Inv(base, Restored(s, lost)) && lost !! s.objects
    requires forall key :: key in batch && key !in lost ==> !Wanted(base, s, key)
    ensures Inv(base, Restored(s.(objects := s.objects - batch), lost))
  {
    var before, after := Restored(s, lost), Restored(s.(objects := s.objects - batch), lost);
    hide Keys, Pending, Unshared, AllPublic;
    forall u, key | u in s.photos && key in Keys(base, s.photos[u]) ensures key in after.objects {
      assert WantedBy(base, s, u, key);
    }
    forall u | u in after.requests ensures RequestInv(base, after, u) {
      assert RequestInv(base, before, u);
      if s.requests[u].Uploading? || s.requests[u].Pushing? {
        forall key | key in Keys(base, s.requests[u].urls) ensures key in after.objects {
          assert WantedBy(base, s, u, key);
        }
      }
    }
  }

  lemma StepKeepsWorld(configured: string, w: World, e: Event, w': World, lost: set<string>)
    requires WorldInv(configured, w, lost) && Next(configured, w, e, w')
    requires w.sweep.Auditing? ==> NoUpload(w.state)
    ensures WorldInv(configured, w', if e.Request? then LostAfter(w.state, e.action, w'.state, lost) else lost)
  {
    hide Inv, PhotoProtocol.Next, Wanted;
    var base := StripSlash(configured);
    if e.Request? {
      StepKeepsInv(base, w.state, e.action, w'.state, lost);
      if w.sweep.Auditing? {
        ListsOnlyShrink(base, w.state, e.action, w'.state, lost);
        ShrinkingKeepsAudit(configured, w, w', lost, LostAfter(w.state, e.action, w'.state, lost));
      } else if w.sweep.Sweeping? {
        RequestKeepsSpared(base, w, e.action, w', lost);
      }
    } else {
      SweepStepKeepsSweepInv(configured, w, e, w', lost);
      if e.DeleteBatch? {
        BatchKeepsInv(base, w.state, lost, e.batch);
      }
    }
  }

  lemma {:induction false} WorldInvHolds(configured: string, run: seq<World>, events: seq<Event>, n: nat, lost: set<string>)
    requires IsRun(configured, run, events) && n < |run| && WorldInv(configured, run[0], lost)
    requires forall m :: 0 <= m < n && run[m].sweep.Auditing? ==> NoUpload(run[m].state)
    ensures WorldInv(configured, run[n], LostSince(lost, run, events, n))
  {
    hide Next, WorldInv, NoUpload;
    if n > 0 {
      WorldInvHolds(configured, run, events, n - 1, lost);
      StepKeepsWorld(configured, run[n - 1], events[n - 1], run[n], LostSince(lost, run, events, n - 1));
    }
  }

  // At the end of the run a listed photo lacks its object only if a rollback has deleted it.
  ghost predicate Harmless(configured: string, run: seq<World>, events: seq<Event>, lost: set<string>)
    requires |run| == |events| + 1
  {
    var last := run[|events|].state;
    forall u, key :: u in last.photos && key in Keys(StripSlash(configured), last.photos[u]) ==>
      (key in last.objects <==> key !in LostSince(lost, run, events, |events|))
  }

  lemma WorldInvIsHarmless(configured: string, run: seq<World>, events: seq<Event>, lost: set<string>)
    requires |run| == |events| + 1 && WorldInv(configured, run[|events|], LostSince(lost, run, events, |events|))
    ensures Harmless(configured, run, events, lost)
  {
    hide Keys, SweepInv;
  }

  /**
   * A sweep deletes no listed photo's object, however its steps interleave with uploads, deletions, reorders and
   * rollbacks, as long as no upload is under way while it audits.
   */
  lemma AuditWithoutUploadsIsHarmless(configured: string, run: seq<World>, events: seq<Event>)
    requires IsRun(configured, run, events)
    requires Initial(StripSlash(configured), run[0].state) && run[0].sweep.Idle?
    requires forall m :: 0 <= m < |run| && run[m].sweep.Auditing? ==> NoUpload(run[m].state)
    ensures Harmless(configured, run, events, {})
  {
    hide Next, NoUpload;
    assert Restored(run[0].state, {}) == run[0].state;
    assert WorldInv(configured, run[0], {});
    hide WorldInv, Harmless, Inv;
    WorldInvHolds(configured, run, events, |events|, {});
    WorldInvIsHarmless(configured, run, events, {});
  }

  /******* Joining runs *******/

  lemma RunsJoin(configured: string, a: seq<World>, aEvents: seq<Event>, b: seq<World>, bEvents: seq<Event>)
    requires IsRun(configured, a, aEvents) && IsRun(configured, b, bEvents) && a[|a| - 1] == b[0]
    ensures IsRun(configured, a + b[1..], aEvents + bEvents) && (a + b[1..])[|a| + |b| - 2] == b[|b| - 1]
  {
    hide Next;
    var run, events := a + b[1..], aEvents + bEvents;
    forall n | 0 <= n < |events| ensures Next(configured, run[n], events[n], run[n + 1]) {
      if n < |aEvents| {
        assert Next(configured, a[n], aEvents[n], a[n + 1]);
      } else {
        assert Next(configured, b[n - |aEvents|], bEvents[n - |aEvents|], b[n - |aEvents| + 1]);
      }
    }
  }

  // A run of the sweep alone, every deletion of which succeeds.
  ghost predicate SweepRun(configured: string, run: seq<World>, events: seq<Event>, from: World, to: World) {
    && IsRun(configured, run, events) && run[0] == from && run[|run| - 1] == to
    && forall e :: e in events ==> !e.Request? && !e.Start? && (e.DeleteBatch? ==> e.call == Done)
  }

  lemma SweepRunPrepend(configured: string, w: World, e: Event, run: seq<World>, events: seq<Event>, from: World, to: World)
    requires Next(configured, w, e, from) && !e.Request? && !e.Start? && (e.DeleteBatch? ==> e.call == Done)
    requires SweepRun(configured, run, events, from, to)
    ensures SweepRun(configured, [w] + run, [e] + events, w, to)
  {
    hide Next;
    var longer, more := [w] + run, [e] + events;
    forall n | 0 <= n < |more| ensures Next(configured, longer[n], more[n], longer[n + 1]) {
      if n > 0 {
        assert Next(configured, run[n - 1], events[n - 1], run[n]);
      }
    }
  }

  // The remaining lists are read one by one; none of them has the key.
  lemma {:induction false} ReadTheRest(configured: string, w: World, key: string)
    returns (run: seq<World>, events: seq<Event>, referenced: set<string>)
    requires w.sweep.Auditing? && w.sweep.unread <= w.state.photos.Keys && key !in w.sweep.referenced
    requires forall v :: v in w.state.photos ==> key !in Keys(StripSlash(configured), w.state.photos[v])
    ensures SweepRun(configured, run, events, w, w.(sweep := w.sweep.(unread := {}, referenced := referenced)))
    ensures key !in referenced
    ensures forall m :: 0 <= m < |run| ==> run[m].sweep.Auditing?
    decreases |w.sweep.unread|
  {
    if w.sweep.unread == {} {
      run, events, referenced := [w], [], w.sweep.referenced;
    } else {
      var u :| u in w.sweep.unread;
      var more := ReferencedBy(configured, w.state.photos[u]);
      ReferencedByIsKeys(configured, w.state.photos[u]);
      var next := w.(sweep := w.sweep.(unread := w.sweep.unread - {u}, referenced := w.sweep.referenced + more));
      run, events, referenced := ReadTheRest(configured, next, key);
      SweepRunPrepend(configured, w, ReadUser(u), run, events, next, run[|run| - 1]);
      run, events := [w] + run, [ReadUser(u)] + events;
    }
  }

  lemma {:induction false} SubsetOfSize(items: set<string>, n: nat) returns (part: set<string>)
    requires n <= |items|
    ensures part <= items && |part| == n
  {
    if n == 0 {
      part := {};
    } else {
      var x :| x in items;
      part := SubsetOfSize(items - {x}, n - 1);
      part := part + {x};
    }
  }

  // What is doomed is deleted batch by batch.
  lemma {:induction false} DeleteTheRest(configured: string, w: World) returns (run: seq<World>, events: seq<Event>)
    requires w.sweep.Sweeping?
    ensures SweepRun(configured, run, events, w,
                     World(w.state.(objects := w.state.objects - w.sweep.left), Sweeping({})))
    ensures forall m :: 0 <= m < |run| ==> run[m].sweep.Sweeping? && run[m].state.requests == w.state.requests
    decreases if w.sweep.Sweeping? then |w.sweep.left| else 0
  {
    var left := w.sweep.left;
    if left == {} {
      assert w.state.objects - {} == w.state.objects;
      run, events := [w], [];
    } else {
      var batch := SubsetOfSize(left, Min(DELETE_BATCH_SIZE, |left|));
      var next := World(w.state.(objects := w.state.objects - batch), Sweeping(left - batch));
      assert |left| == |left - batch| + |batch| by { assert left == (left - batch) + batch; }
      run, events := DeleteTheRest(configured, next);
      assert next.state.objects - next.sweep.left == w.state.objects - left;
      SweepRunPrepend(configured, w, DeleteBatch(batch, Done), run, events, next, run[|run| - 1]);
      run, events := [w] + run, [DeleteBatch(batch, Done)] + events;
    }
  }

  lemma {:induction false} NothingMoreLost(lost: set<string>, run: seq<World>, events: seq<Event>, n: nat)
    requires |run| == |events| + 1 && n < |run|
    requires forall e :: e in events && e.Request? ==> !e.action.Rollback?
    ensures LostSince(lost, run, events, n) <= lost
  {
    if n > 0 {
      NothingMoreLost(lost, run, events, n - 1);
      assert events[n - 1] in events;
    }
  }

  lemma {:induction false} LongerThanAll(items: set<string>) returns (n: nat)
    ensures forall x :: x in items ==> |x| < n
  {
    if items == {} {
      n := 0;
    } else {
      var x :| x in items;
      n := LongerThanAll(items - {x});
      n := n + |x| + 1;
      assert forall y :: y in items ==> y == x || y in items - {x};
    }
  }

  // There is always a uuid whose key is new: one longer than every key in use.
  lemma FreshUuid(base: string, s: State, u: UserId, others: set<string>) returns (uuid: string)
    ensures FreshKey(base, s, PhotoKey(u, uuid)) && PhotoKey(u, uuid) !in others
  {
    var listed := set v, key | v in s.photos && key in Keys(base, s.photos[v]) :: key;
    var pending := set v, key | v in s.requests && key in Pending(base, s.requests[v]) :: key;
    var n := LongerThanAll(s.objects + listed + pending + others);
    uuid := seq(n, _ => 'x');
    var key := PhotoKey(u, uuid);
    assert |key| >= n;
    forall v | v in s.photos ensures key !in Keys(base, s.photos[v]) {
      assert forall k :: k in Keys(base, s.photos[v]) ==> k in listed;
    }
    forall v | v in s.requests ensures key !in Pending(base, s.requests[v]) {
      assert forall k :: k in Pending(base, s.requests[v]) ==> k in pending;
    }
  }

  /******* An upload within the audit *******/

  // The three steps of an upload of one photo that succeeds.
  predicate UploadStep(e: Event, u: UserId, uuid: string) {
    e.Request? && (e.action == BeginUpload(u, 1) || e.action == PutObject(u, uuid, Done) || e.action == PushUrls(u, Done))
  }

  // Once the lists are read: the upload begins, puts and pushes; then the object is listed and the audit ends.
  lemma UploadBehindTheReads(configured: string, w: World, u: UserId, uuid: string) returns (run: seq<World>, events: seq<Event>)
    requires w.sweep.Auditing? && w.sweep.unread == {} && w.sweep.listed == {} && w.sweep.due <= UserObjects(w.state.objects)
    requires w.state.requests == map[] && u in w.state.photos && |w.state.photos[u]| < MAX_PHOTOS
    requires FreshKey(StripSlash(configured), w.state, PhotoKey(u, uuid)) && PhotoKey(u, uuid) !in w.sweep.referenced
    ensures IsRun(configured, run, events) && run[0] == w
    ensures forall e :: e in events ==> (e.Request? ==> UploadStep(e, u, uuid)) && !e.DeleteBatch?
    ensures forall m :: 0 <= m < |run| - 1 ==> run[m].sweep.Auditing?
    ensures var last, key := run[|run| - 1], PhotoKey(u, uuid);
            && last.sweep.Sweeping? && key in last.sweep.left && last.state.requests == map[] && u in last.state.photos
            && key in Keys(StripSlash(configured), last.state.photos[u])
  {
    var base, key, s, a := StripSlash(configured), PhotoKey(u, uuid), w.state, w.sweep;
    var url := GetPublicUrl(base, key);
    var begun := s.(requests := map[u := Uploading(1, [])]);
    var put := State(s.photos, s.objects + {key}, map[u := Pushing([] + [url])]);
    var pushed := State(s.photos[u := s.photos[u] + ([] + [url])], put.objects, map[]);
    var page := UserObjects(put.objects);
    var listed := Auditing(a.due - page, {} + page, {}, a.referenced);
    KeyIffPublicUrl(base, url, key);
    assert StartsWith(key, USERS_PREFIX) by { PhotoKeyIsUserObject(u, uuid); }
    assert FreshKey(base, begun, key);
    run := [w, World(begun, a), World(put, a), World(pushed, a), World(pushed, listed), World(pushed, Sweeping(page - a.referenced))];
    events := [Request(BeginUpload(u, 1)), Request(PutObject(u, uuid, Done)), Request(PushUrls(u, Done)), ListPage(page), EndAudit];
    assert Next(configured, run[0], events[0], run[1]);
    assert begun.requests[u := Pushing([] + [url])] == put.requests;
    assert Next(configured, run[1], events[1], run[2]);
    assert put.requests - {u} == map[];
    assert Next(configured, run[2], events[2], run[3]);
    assert Next(configured, run[3], events[3], run[4]);
    assert a.due - page == {} && {} + page == page;
    assert Next(configured, run[4], events[4], run[5]);
    assert url in pushed.photos[u];
  }

  lemma PhotoKeyIsUserObject(u: UserId, uuid: string)
    ensures StartsWith(PhotoKey(u, uuid), USERS_PREFIX)
  {
    assert PhotoKey(u, uuid)[..6] == USERS_PREFIX;
  }

  lemma FreshIsUnlisted(base: string, s: State, key: string)
    requires FreshKey(base, s, key)
    ensures forall v :: v in s.photos ==> key !in Keys(base, s.photos[v])
  {
  }

  /**
   * One upload within the audit is enough for harm: from any state without requests, for any user with room for a photo,
   * there is a run in which that upload begins after the sweep and is over before its first deletion, every call
   * succeeds, and the sweep deletes the object of the photo just listed.
   */
  lemma OneUploadCanLoseItsPhoto(configured: string, s: State, u: UserId, uuid: string)
    returns (run: seq<World>, events: seq<Event>)
    requires Initial(StripSlash(configured), s) && u in s.photos && |s.photos[u]| < MAX_PHOTOS
    requires FreshKey(StripSlash(configured), s, PhotoKey(u, uuid))
    ensures IsRun(configured, run, events) && run[0] == World(s, Idle) && events != [] && events[0] == Start
    ensures forall e :: e in events ==> (e.Request? ==> UploadStep(e, u, uuid)) && (e.DeleteBatch? ==> e.call == Done)
    ensures forall m :: 0 <= m < |run| && run[m].sweep.Sweeping? ==> run[m].state.requests == map[]
    ensures LostSince({}, run, events, |events|) == {} && !Harmless(configured, run, events, {})
  {
    hide Inv, FreshKey, Keys;
    var base, key := StripSlash(configured), PhotoKey(u, uuid);
    var begun := World(s, Auditing(UserObjects(s.objects), {}, s.photos.Keys, {}));
    FreshIsUnlisted(base, s, key);
    var audit, auditEvents, referenced := ReadTheRest(configured, begun, key);
    var first := [World(s, Idle), begun];
    assert Next(configured, first[0], Start, first[1]);
    assert IsRun(configured, first, [Start]);
    var ups, upEvents := UploadBehindTheReads(configured, audit[|audit| - 1], u, uuid);
    var deletes, deleteEvents := DeleteTheRest(configured, ups[|ups| - 1]);
    hide Next;
    RunsJoin(configured, first, [Start], audit, auditEvents);
    run, events := first + audit[1..], [Start] + auditEvents;
    RunsJoin(configured, run, events, ups, upEvents);
    run, events := run + ups[1..], events + upEvents;
    RunsJoin(configured, run, events, deletes, deleteEvents);
    run, events := run + deletes[1..], events + deleteEvents;
    NothingMoreLost({}, run, events, |events|);
    var last := run[|run| - 1].state;
    assert key in Keys(base, last.photos[u]) && key !in last.objects;
  }

  /******* Exactly the phases that uploads may overlap *******/

  datatype Phase = Audit | Deletion

  // A run from s without a sweep under way, in which uploads are under way during the given phases of sweeps only.
  ghost predicate Admitted(configured: string, s: State, run: seq<World>, events: seq<Event>, phases: set<Phase>) {
    && |run| == |events| + 1 && IsRun(configured, run, events) && run[0] == World(s, Idle)
    && (Audit !in phases ==> forall m :: 0 <= m < |run| && run[m].sweep.Auditing? ==> NoUpload(run[m].state))
    && (Deletion !in phases ==> forall m :: 0 <= m < |run| && run[m].sweep.Sweeping? ==> NoUpload(run[m].state))
  }

  /** Whatever else goes on beside it, a sweep is harmless if and only if uploads are kept away from its audit. */
  lemma SweepIsHarmlessIffAuditIsFree(configured: string, s: State, phases: set<Phase>)
    requires Initial(StripSlash(configured), s) && exists u :: u in s.photos && |s.photos[u]| < MAX_PHOTOS
    ensures (forall run: seq<World>, events: seq<Event> :: Admitted(configured, s, run, events, phases) ==> Harmless(configured, run, events, {})) <==>
            Audit !in phases
  {
    hide IsRun, Inv, Keys;
    if Audit in phases {
      var u :| u in s.photos && |s.photos[u]| < MAX_PHOTOS;
      var uuid := FreshUuid(StripSlash(configured), s, u, {});
      var run, events := OneUploadCanLoseItsPhoto(configured, s, u, uuid);
      assert |run| == |events| + 1 by { RunLength(configured, run, events); }
      assert Admitted(configured, s, run, events, phases);
    } else {
      forall run: seq<World>, events: seq<Event> | Admitted(configured, s, run, events, phases) ensures Harmless(configured, run, events, {}) {
        AuditWithoutUploadsIsHarmless(configured, run, events);
      }
    }
  }

  lemma RunLength(configured: string, run: seq<World>, events: seq<Event>)
    requires IsRun(configured, run, events)
    ensures |run| == |events| + 1
  {
  }

  /******* Exactly the audits that are harmless *******/

  // From here to the end of the sweep under way, whatever requests come.
  ghost predicate Continues(configured: string, w: World, run: seq<World>, events: seq<Event>) {
    |run| == |events| + 1 && IsRun(configured, run, events) && run[0] == w && Start !in events
  }

  // The remaining puts and the push of an upload under way succeed.
  lemma {:induction false} FinishUpload(configured: string, w: World, u: UserId) returns (run: seq<World>, events: seq<Event>)
    requires u in w.state.requests && u in w.state.photos
    requires w.state.requests[u].Pushing? || (w.state.requests[u].Uploading? && w.state.requests[u].left > 0)
    ensures IsRun(configured, run, events) && run[0] == w && run[|run| - 1].sweep == w.sweep
    ensures forall e :: e in events ==> e.Request? && (e.action.PutObject? || e.action.PushUrls?)
    ensures var last := run[|run| - 1].state;
            u in last.photos && Keys(StripSlash(configured), w.state.requests[u].urls) <= Keys(StripSlash(configured), last.photos[u])
    decreases if w.state.requests[u].Uploading? then w.state.requests[u].left else 0
  {
    var base, s, r := StripSlash(configured), w.state, w.state.requests[u];
    if r.Pushing? {
      var pushed := Ended(s.(photos := s.photos[u := s.photos[u] + r.urls]), u);
      KeysOfAppend(base, s.photos[u], r.urls);
      run, events := [w, World(pushed, w.sweep)], [Request(PushUrls(u, Done))];
      assert Next(configured, run[0], events[0], run[1]);
    } else {
      var met := match w.sweep case Idle => {} case Auditing(due, listed, _, _) => due + listed case Sweeping(left) => left;
      var uuid := FreshUuid(base, s, u, met);
      var key := PhotoKey(u, uuid);
      var next := World(State(s.photos, s.objects + {key}, s.requests[u := AfterPut(base, r, key, Done)]), w.sweep);
      KeysOfAppend(base, r.urls, [GetPublicUrl(base, key)]);
      assert Next(configured, w, Request(PutObject(u, uuid, Done)), next);
      hide Next;
      run, events := FinishUpload(configured, next, u);
      assert IsRun(configured, [w, next], [Request(PutObject(u, uuid, Done))]);
      RunsJoin(configured, [w, next], [Request(PutObject(u, uuid, Done))], run, events);
      run, events := [w, next] + run[1..], [Request(PutObject(u, uuid, Done))] + events;
    }
  }

  // A run that deletes a wanted object.
  lemma WantedCanBeDeleted(configured: string, w: World, lost: set<string>, key: string)
    returns (run: seq<World>, events: seq<Event>)
    requires Inv(StripSlash(configured), Restored(w.state, lost)) && w.sweep.Sweeping?
    requires key in w.sweep.left && key !in lost && Wanted(StripSlash(configured), w.state, key)
    ensures Continues(configured, w, run, events) && !Harmless(configured, run, events, lost)
  {
    var base := StripSlash(configured);
    run, events := [w], [];
    var u :| WantedBy(base, w.state, u, key);
    if !(u in w.state.photos && key in Keys(base, w.state.photos[u])) {
      assert RequestInv(base, Restored(w.state, lost), u);
      run, events := FinishUpload(configured, w, u);
    }
    hide Next, Inv, Keys;
    var deletes, deleteEvents := DeleteTheRest(configured, run[|run| - 1]);
    RunsJoin(configured, run, events, deletes, deleteEvents);
    run, events := run + deletes[1..], events + deleteEvents;
    NothingMoreLost(lost, run, events, |events|);
    var last := run[|events|].state;
    assert u in last.photos && key in Keys(base, last.photos[u]) && key !in last.objects;
  }

  lemma {:induction false} NeverAuditsAgain(configured: string, w: World, run: seq<World>, events: seq<Event>, n: nat)
    requires Continues(configured, w, run, events) && n < |run| && !w.sweep.Auditing?
    ensures !run[n].sweep.Auditing?
  {
    if n > 0 {
      NeverAuditsAgain(configured, w, run, events, n - 1);
      assert Next(configured, run[n - 1], events[n - 1], run[n]);
      assert events[n - 1] in events;
    }
  }

  /**
   * Once the audit is over its list decides: every way to go on is harmless if and only if no key on it is on a user's
   * list or on its way there by an upload.
   */
  lemma AuditDecides(configured: string, w: World, lost: set<string>)
    requires Inv(StripSlash(configured), Restored(w.state, lost)) && lost !! w.state.objects && w.sweep.Sweeping?
    ensures (forall run: seq<World>, events: seq<Event> :: Continues(configured, w, run, events) ==> Harmless(configured, run, events, lost)) <==>
            Spared(StripSlash(configured), w, lost)
  {
    hide Next, Inv, Keys, Wanted;
    if Spared(StripSlash(configured), w, lost) {
      forall run: seq<World>, events: seq<Event> | Continues(configured, w, run, events) ensures Harmless(configured, run, events, lost) {
        forall m | 0 <= m < |run| ensures !run[m].sweep.Auditing? {
          NeverAuditsAgain(configured, w, run, events, m);
        }
        WorldInvHolds(configured, run, events, |events|, lost);
        WorldInvIsHarmless(configured, run, events, lost);
      }
    } else {
      var key :| key in w.sweep.left && key !in lost && Wanted(StripSlash(configured), w.state, key);
      var run, events := WantedCanBeDeleted(configured, w, lost, key);
    }
  }

  // Up to the first deletion of a sweep nothing is lost but to rollbacks.
  lemma {:induction false} NoDeletionYet(configured: string, run: seq<World>, events: seq<Event>, n: nat)
    requires IsRun(configured, run, events) && n < |run| && Initial(StripSlash(configured), run[0].state)
    requires forall m :: 0 <= m < n ==> !events[m].DeleteBatch?
    ensures var lost := LostSince({}, run, events, n);
            Inv(StripSlash(configured), Restored(run[n].state, lost)) && lost !! run[n].state.objects
  {
    hide PhotoProtocol.Next, Inv;
    if n > 0 {
      NoDeletionYet(configured, run, events, n - 1);
      assert Next(configured, run[n - 1], events[n - 1], run[n]);
      if events[n - 1].Request? {
        StepKeepsInv(StripSlash(configured), run[n - 1].state, events[n - 1].action, run[n].state,
                     LostSince({}, run, events, n - 1));
      }
    } else {
      assert Restored(run[0].state, {}) == run[0].state;
    }
  }

  /** So it is in every run, with uploads at any time, when the first audit of a sweep is over. */
  lemma FirstAuditDecides(configured: string, run: seq<World>, events: seq<Event>, n: nat)
    requires IsRun(configured, run, events) && n < |run| && Initial(StripSlash(configured), run[0].state)
    requires forall m :: 0 <= m < n ==> !events[m].DeleteBatch?
    requires run[n].sweep.Sweeping?
    ensures var lost := LostSince({}, run, events, n);
            (forall more: seq<World>, later: seq<Event> :: Continues(configured, run[n], more, later) ==>
               Harmless(configured, more, later, lost)) <==>
            Spared(StripSlash(configured), run[n], lost)
  {
    hide Next, Inv, Harmless, Spared, LostSince;
    NoDeletionYet(configured, run, events, n);
    AuditDecides(configured, run[n], LostSince({}, run, events, n));
  }
}
