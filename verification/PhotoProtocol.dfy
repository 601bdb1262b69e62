// Photo requests over two stores: the users' photo lists and the object bucket.
//
// Each user has at most one request under way; requests of different users interleave. Any call to
// a store may fail and a process may die between any two calls.
module PhotoProtocol {
  import opened Documents
  import opened Ordering
  import opened PublicUrls

  const MAX_PHOTOS := 5

  type UserId = string
  type Url = string

  datatype Request =
    | Uploading(left: nat, urls: seq<Url>)
    | Pushing(urls: seq<Url>)
    | RollingBack(urls: seq<Url>, written: bool)
    | Pulling(url: Url)
    | Deleting(key: string)
    | Reordering(order: seq<Url>)

  datatype State = State(photos: map<UserId, seq<Url>>, objects: set<string>, requests: map<UserId, Request>)

  // How a storage call ends: done, or failed with or without having taken effect.
  datatype Call = Done | Failed(applied: bool)

  datatype Action =
    | BeginUpload(user: UserId, count: nat)
    | BeginDelete(user: UserId, url: Url)
    | BeginReorder(user: UserId, order: seq<Url>)
    | PutObject(user: UserId, uuid: string, call: Call)
    | PushUrls(user: UserId, call: Call)
    | Rollback(user: UserId, gone: set<string>)
    | PullUrl(user: UserId, call: Call)
    | DeleteObject(user: UserId, call: Call)
    | WriteOrder(user: UserId, call: Call)
    | Die(user: UserId)

  /******* Reading the lists *******/

  // The keys that a list of URLs refers to.
  function Keys(base: string, urls: seq<Url>): set<string> {
    set url | url in urls && GetKeyFromUrl(base, url).Some? :: GetKeyFromUrl(base, url).value
  }

  // The keys a request has written or is about to delete, and no list refers to.
  function Pending(base: string, r: Request): set<string> {
    match r
    case Uploading(_, urls) => Keys(base, urls)
    case Pushing(urls) => Keys(base, urls)
    case RollingBack(urls, written) => if written then {} else Keys(base, urls)
    case Deleting(key) => {key}
    case Pulling(_) => {}
    case Reordering(_) => {}
  }

  function Without(urls: seq<Url>, url: Url): (r: seq<Url>)
    ensures |r| <= |urls| && forall x :: x in r <==> x in urls && x != url
  {
    if urls == [] then []
    else (if urls[0] == url then [] else [urls[0]]) + Without(urls[1..], url)
  }

  /** What stays is what is not the URL, each item at its place in the old order. */
  ghost predicate KeepsOrder(urls: seq<Url>, url: Url, kept: seq<Url>) {
    exists at: seq<int> :: KeptAt(urls, url, kept, at)
  }

  // The kept items stood at these places, in this order, and at no other place stood one to keep.
  ghost predicate KeptAt(urls: seq<Url>, url: Url, kept: seq<Url>, at: seq<int>) {
    && |at| == |kept| && (forall j, k :: 0 <= j < k < |at| ==> at[j] < at[k])
    && (forall j :: 0 <= j < |at| ==> 0 <= at[j] < |urls| && kept[j] == urls[at[j]])
    && (forall i :: 0 <= i < |urls| ==> (i in at <==> urls[i] != url))
  }

  // The places, each one further.
  function Shifted(at: seq<int>): (r: seq<int>)
    ensures |r| == |at| && forall j :: 0 <= j < |at| ==> r[j] == at[j] + 1
  {
    seq(|at|, j requires 0 <= j < |at| => at[j] + 1)
  }

  lemma ShiftedPlaces(at: seq<int>, i: int)
    ensures i in Shifted(at) <==> i - 1 in at
  {
    if i - 1 in at {
      var j :| 0 <= j < |at| && at[j] == i - 1;
      assert Shifted(at)[j] == i;
    }
    if i in Shifted(at) {
      var j :| 0 <= j < |at| && Shifted(at)[j] == i;
      assert at[j] == i - 1;
    }
  }

  lemma PrependDropped(urls: seq<Url>, url: Url, kept: seq<Url>, at: seq<int>)
    requires KeptAt(urls, url, kept, at)
    ensures KeptAt([url] + urls, url, kept, Shifted(at))
  {
    hide Shifted;
    forall i | 0 <= i < |urls| + 1 ensures i in Shifted(at) <==> ([url] + urls)[i] != url {
      ShiftedPlaces(at, i);
      assert forall j :: 0 <= j < |at| ==> at[j] != -1;
    }
  }

  lemma PrependKept(head: Url, urls: seq<Url>, url: Url, kept: seq<Url>, at: seq<int>)
    requires KeptAt(urls, url, kept, at) && head != url
    ensures KeptAt([head] + urls, url, [head] + kept, [0] + Shifted(at))
  {
    hide Shifted;
    var longer := [0] + Shifted(at);
    forall i | 0 <= i < |urls| + 1 ensures i in longer <==> ([head] + urls)[i] != url {
      ShiftedPlaces(at, i);
      assert i in longer <==> i == 0 || i in Shifted(at);
      assert forall j :: 0 <= j < |at| ==> at[j] != -1;
    }
  }

  lemma {:induction false} WithoutKeepsOrder(urls: seq<Url>, url: Url) returns (at: seq<int>)
    ensures KeptAt(urls, url, Without(urls, url), at)
  {
    at := [];
    if urls != [] {
      hide KeptAt;
      assert urls == [urls[0]] + urls[1..];
      at := WithoutKeepsOrder(urls[1..], url);
      if urls[0] == url {
        PrependDropped(urls[1..], url, Without(urls[1..], url), at);
        assert Without(urls, url) == Without(urls[1..], url);
        at := Shifted(at);
      } else {
        PrependKept(urls[0], urls[1..], url, Without(urls[1..], url), at);
        at := [0] + Shifted(at);
      }
    }
  }

  lemma {:induction false} WithoutOnce(pre: seq<Url>, url: Url, post: seq<Url>)
    requires url !in pre && url !in post
    ensures Without(pre + [url] + post, url) == pre + post
  {
    if pre == [] {
      assert ([] + [url] + post)[1..] == post;
      WithoutNothing(post, url);
    } else {
      WithoutOnce(pre[1..], url, post);
      assert (pre + [url] + post)[1..] == pre[1..] + [url] + post;
    }
  }

  lemma {:induction false} WithoutNothing(urls: seq<Url>, url: Url)
    requires url !in urls
    ensures Without(urls, url) == urls
  {
    if urls != [] {
      WithoutNothing(urls[1..], url);
    }
  }

  // The checks of a reorder: every URL is the user's, and their number is right.
  predicate AcceptedOrder(stored: seq<Url>, order: seq<Url>) {
    (forall url :: url in order ==> url in stored) && |order| == |stored|
  }

  // A key made from a new uuid occurs nowhere yet.
  ghost predicate FreshKey(base: string, s: State, key: string) {
    key !in s.objects && Unused(base, s, key)
  }

  // No list and no request has the key.
  ghost predicate Unused(base: string, s: State, key: string) {
    && (forall u :: u in s.photos ==> key !in Keys(base, s.photos[u]))
    && (forall u :: u in s.requests ==> key !in Pending(base, s.requests[u]))
  }

  /******* Steps *******/

  function Ended(s: State, u: UserId): State {
    s.(requests := s.requests - {u})
  }

  function NextUpload(left: nat, urls: seq<Url>): Request {
    if left == 0 then Pushing(urls) else Uploading(left, urls)
  }

  function AfterPut(base: string, r: Request, key: string, call: Call): Request
    requires r.Uploading? && r.left > 0
  {
    if call == Done then NextUpload(r.left - 1, r.urls + [GetPublicUrl(base, key)]) else RollingBack(r.urls, false)
  }

  ghost predicate Next(base: string, s: State, a: Action, s': State) {
    var u := a.user;
    u in s.photos &&
    match a
    case BeginUpload(_, count) =>
      && u !in s.requests && |s.photos[u]| + count <= MAX_PHOTOS
      && s' == s.(requests := s.requests[u := NextUpload(count, [])])
    case BeginDelete(_, url) =>
      && u !in s.requests && url in s.photos[u]
      && s' == s.(requests := s.requests[u := Pulling(url)])
    case BeginReorder(_, order) =>
      && u !in s.requests && AcceptedOrder(s.photos[u], order)
      && s' == s.(requests := s.requests[u := Reordering(order)])
    case PutObject(_, uuid, call) =>
      && u in s.requests && s.requests[u].Uploading? && s.requests[u].left > 0
      && FreshKey(base, s, PhotoKey(u, uuid))
      && var key := PhotoKey(u, uuid);
      s' == State(
        s.photos,
        if call == Done || call.applied then s.objects + {key} else s.objects,
        s.requests[u := AfterPut(base, s.requests[u], key, call)])
    case PushUrls(_, call) =>
      && u in s.requests && s.requests[u].Pushing?
      && var urls := s.requests[u].urls;
      var after := if call == Done || call.applied then s.(photos := s.photos[u := s.photos[u] + urls]) else s;
      s' == if call == Done then Ended(after, u)
            else after.(requests := s.requests[u := RollingBack(urls, call.applied)])
    case Rollback(_, gone) =>
      && u in s.requests && s.requests[u].RollingBack? && gone <= Keys(base, s.requests[u].urls)
      && s' == Ended(s.(objects := s.objects - gone), u)
    case PullUrl(_, call) =>
      && u in s.requests && s.requests[u].Pulling?
      && var url := s.requests[u].url;
      var after := if call == Done || call.applied then s.(photos := s.photos[u := Without(s.photos[u], url)]) else s;
      var key := GetKeyFromUrl(base, url);
      s' == if call == Done && key.Some? && key.value != "" then after.(requests := s.requests[u := Deleting(key.value)])
            else Ended(after, u)
    case DeleteObject(_, call) =>
      && u in s.requests && s.requests[u].Deleting?
      && s' == Ended(if call == Done || call.applied then s.(objects := s.objects - {s.requests[u].key}) else s, u)
    case WriteOrder(_, call) =>
      && u in s.requests && s.requests[u].Reordering?
      && s' == Ended(if call == Done || call.applied then s.(photos := s.photos[u := s.requests[u].order]) else s, u)
    case Die(_) => u in s.requests && s' == Ended(s, u)
  }

  /******* The invariant *******/

  /** Every URL of every list that belongs to the bucket has its object. */
  ghost predicate Linked(base: string, photos: map<UserId, seq<Url>>, objects: set<string>) {
    forall u :: u in photos ==> Keys(base, photos[u]) <= objects
  }

  // No two users refer to the same object.
  ghost predicate Unshared(base: string, photos: map<UserId, seq<Url>>) {
    forall u, v :: u in photos && v in photos && u != v ==> Keys(base, photos[u]) !! Keys(base, photos[v])
  }

  // Every URL stands for a key.
  ghost predicate AllPublic(base: string, urls: seq<Url>) {
    forall url :: url in urls ==> GetKeyFromUrl(base, url).Some?
  }

  // What a request is about to publish is stored; what it may delete, nobody refers to.
  ghost predicate RequestInv(base: string, s: State, u: UserId)
    requires u in s.requests
  {
    && u in s.photos
    && (forall v :: v in s.photos ==> Keys(base, s.photos[v]) !! Pending(base, s.requests[u]))
    && match s.requests[u]
       case Uploading(left, urls) =>
         left > 0 && Keys(base, urls) <= s.objects && AllPublic(base, urls) && |s.photos[u]| + left + |urls| <= MAX_PHOTOS
       case Pushing(urls) => Keys(base, urls) <= s.objects && AllPublic(base, urls) && |s.photos[u]| + |urls| <= MAX_PHOTOS
       case RollingBack(urls, written) => written ==> Keys(base, urls) <= Keys(base, s.photos[u])
       case Pulling(url) => url in s.photos[u]
       case Reordering(order) => AcceptedOrder(s.photos[u], order)
       case _ => true
  }

  ghost predicate Disjoint(base: string, s: State) {
    forall u, v :: u in s.requests && v in s.requests && u != v ==>
      Pending(base, s.requests[u]) !! Pending(base, s.requests[v])
  }

  ghost predicate Inv(base: string, s: State) {
    && Linked(base, s.photos, s.objects) && Unshared(base, s.photos) && Disjoint(base, s)
    && (forall u :: u in s.photos ==> |s.photos[u]| <= MAX_PHOTOS)
    && (forall u :: u in s.requests ==> RequestInv(base, s, u))
  }

  /******* Every step keeps the invariant *******/

  lemma KeysOfAppend(base: string, urls: seq<Url>, more: seq<Url>)
    ensures Keys(base, urls + more) == Keys(base, urls) + Keys(base, more)
  {
  }

  lemma KeysOfOne(base: string, key: string)
    ensures Keys(base, [GetPublicUrl(base, key)]) == {key}
  {
    KeyIffPublicUrl(base, GetPublicUrl(base, key), key);
  }

  // Dropping a URL drops exactly its key: no other URL has it.
  lemma KeysWithout(base: string, urls: seq<Url>, url: Url)
    ensures Keys(base, Without(urls, url)) ==
            Keys(base, urls) - (if GetKeyFromUrl(base, url).Some? then {GetKeyFromUrl(base, url).value} else {})
  {
    forall x | x in urls && GetKeyFromUrl(base, x).Some? && GetKeyFromUrl(base, x) == GetKeyFromUrl(base, url) ensures x == url {
      KeyIffPublicUrl(base, x, GetKeyFromUrl(base, x).value);
      KeyIffPublicUrl(base, url, GetKeyFromUrl(base, x).value);
    }
  }

  lemma KeysOfNone(base: string)
    ensures Keys(base, []) == {}
  {
  }

  lemma EndKeepsInv(base: string, s: State, u: UserId)
    requires Inv(base, s)
    ensures Inv(base, Ended(s, u))
  {
    hide Keys, Pending;
    forall v | v in Ended(s, u).requests ensures RequestInv(base, Ended(s, u), v) {
      assert RequestInv(base, s, v);
    }
  }

  // A request begins without touching a store.
  lemma BeginKeepsInv(base: string, s: State, u: UserId, r: Request, s': State)
    requires Inv(base, s) && u in s.photos && u !in s.requests && Pending(base, r) == {}
    requires s' == s.(requests := s.requests[u := r])
    requires RequestInv(base, s', u)
    ensures Inv(base, s')
  {
    hide Keys, Pending;
    forall v | v in s'.requests && v != u ensures RequestInv(base, s', v) {
      assert RequestInv(base, s, v);
    }
  }

  lemma BeginsKeepInv(base: string, s: State, a: Action, s': State)
    requires Inv(base, s) && Next(base, s, a, s') && (a.BeginUpload? || a.BeginDelete? || a.BeginReorder?)
    ensures Inv(base, s')
  {
    hide Keys, Linked, Unshared, Disjoint;
    KeysOfNone(base);
    assert Pending(base, s'.requests[a.user]) == {};
    BeginKeepsInv(base, s, a.user, s'.requests[a.user], s');
  }

  // A request keeps its invariant while its user's list, its objects and its secrecy are kept.
  lemma RequestKept(base: string, s: State, s': State, v: UserId)
    requires v in s.requests && v in s'.requests && s'.requests[v] == s.requests[v] && RequestInv(base, s, v)
    requires v in s'.photos && s'.photos[v] == s.photos[v]
    requires Pending(base, s.requests[v]) * s.objects <= s'.objects
    requires forall w :: w in s'.photos ==> Keys(base, s'.photos[w]) !! Pending(base, s.requests[v])
    ensures RequestInv(base, s', v)
  {
    hide Keys;
  }

  // A put, whatever else the bucket may hold afterwards.
  lemma PutKeepsInv(base: string, s: State, u: UserId, key: string, call: Call, s': State)
    requires Inv(base, s) && u in s.photos && u in s.requests && s.requests[u].Uploading? && s.requests[u].left > 0
    requires Unused(base, s, key) && s'.photos == s.photos
    requires s.objects + (if call == Done then {key} else {}) <= s'.objects
    requires s'.requests == s.requests[u := AfterPut(base, s.requests[u], key, call)]
    ensures Inv(base, s')
  {
    hide Keys, Pending, AllPublic, AfterPut, Next;
    PutRequestInv(base, s, u, key, call, s');
    OtherRequestsKept(base, s, u, s');
    PutKeepsDisjoint(base, s, u, key, s');
    hide Unused, RequestInv, Disjoint;
  }

  lemma OtherRequestsKept(base: string, s: State, u: UserId, s': State)
    requires Inv(base, s) && s'.photos == s.photos && s.objects <= s'.objects
    requires u in s.requests && u in s'.requests && s'.requests == s.requests[u := s'.requests[u]]
    ensures forall v :: v in s'.requests && v != u ==> RequestInv(base, s', v)
  {
    hide Keys, AllPublic;
    forall v | v in s'.requests && v != u ensures RequestInv(base, s', v) {
      assert RequestInv(base, s, v);
      RequestKept(base, s, s', v);
    }
  }

  lemma PutKeepsDisjoint(base: string, s: State, u: UserId, key: string, s': State)
    requires Disjoint(base, s) && Unused(base, s, key)
    requires u in s.requests && u in s'.requests && s'.requests == s.requests[u := s'.requests[u]]
    requires Pending(base, s'.requests[u]) <= Pending(base, s.requests[u]) + {key}
    ensures Disjoint(base, s')
  {
    hide Pending, Keys;
  }

  lemma PutRequestInv(base: string, s: State, u: UserId, key: string, call: Call, s': State)
    requires Inv(base, s) && u in s.photos && u in s.requests && s.requests[u].Uploading? && s.requests[u].left > 0
    requires Unused(base, s, key) && s'.photos == s.photos
    requires s.objects + (if call == Done then {key} else {}) <= s'.objects
    requires s'.requests == s.requests[u := AfterPut(base, s.requests[u], key, call)]
    ensures RequestInv(base, s', u) && Pending(base, s'.requests[u]) <= Pending(base, s.requests[u]) + {key}
  {
    hide Keys, AllPublic, Linked, Unshared, Disjoint;
    var urls := s.requests[u].urls;
    assert RequestInv(base, s, u);
    KeysOfOne(base, key);
    KeysOfAppend(base, urls, [GetPublicUrl(base, key)]);
    PublicAppend(base, urls, key);
  }

  lemma PublicAppend(base: string, urls: seq<Url>, key: string)
    requires AllPublic(base, urls)
    ensures AllPublic(base, urls + [GetPublicUrl(base, key)])
  {
    KeyIffPublicUrl(base, GetPublicUrl(base, key), key);
  }

  // A deletion of objects nobody refers to ends its request.
  lemma ObjectsDeletedKeepInv(base: string, s: State, u: UserId, s': State)
    requires Inv(base, s) && u in s.photos && u in s.requests
    requires s'.photos == s.photos && s'.requests == s.requests - {u}
    requires s.objects - Pending(base, s.requests[u]) <= s'.objects
    ensures Inv(base, s')
  {
    hide Keys, AllPublic;
    assert RequestInv(base, s, u);
    forall v | v in s'.requests ensures RequestInv(base, s', v) {
      assert RequestInv(base, s, v);
      assert Pending(base, s.requests[v]) !! Pending(base, s.requests[u]);
      RequestKept(base, s, s', v);
    }
  }

  lemma PushKeepsInv(base: string, s: State, a: Action, s': State)
    requires Inv(base, s) && Next(base, s, a, s') && a.PushUrls?
    ensures Inv(base, s')
  {
    var u, urls := a.user, s.requests[a.user].urls;
    hide Inv, RequestInv, Keys, FreshKey;
    if a.call == Failed(false) {
      GivingUpKeepsInv(base, s, u, s');
    } else {
      var published := Ended(s.(photos := s.photos[u := s.photos[u] + urls]), u);
      PublishingKeepsInv(base, s, u, published);
      if a.call.Failed? {
        ReplaceRemoved(s.requests, u, RollingBack(urls, true));
        assert RequestInv(base, s', u) by { ListedRollback(base, s', u, s.photos[u]); }
        BeginKeepsInv(base, published, u, RollingBack(urls, true), s');
      }
    }
  }

  // The list has the URLs, and the request is over.
  lemma PublishingKeepsInv(base: string, s: State, u: UserId, s': State)
    requires Inv(base, s) && u in s.photos && u in s.requests && s.requests[u].Pushing?
    requires s' == Ended(s.(photos := s.photos[u := s.photos[u] + s.requests[u].urls]), u)
    ensures Inv(base, s')
  {
    hide Keys, AllPublic, Pending, Next;
    assert RequestInv(base, s, u);
    KeysOfAppend(base, s.photos[u], s.requests[u].urls);
    assert Pending(base, s.requests[u]) == Keys(base, s.requests[u].urls) by {
      PendingOfPush(base, s.requests[u]);
    }
    OthersAfterPublishing(base, s, u, s');
    hide RequestInv;
  }

  lemma PendingOfPush(base: string, r: Request)
    requires r.Pushing?
    ensures Pending(base, r) == Keys(base, r.urls)
  {
  }

  lemma OthersAfterPublishing(base: string, s: State, u: UserId, s': State)
    requires Inv(base, s) && u in s.photos && u in s.requests && s.requests[u].Pushing?
    requires s' == Ended(s.(photos := s.photos[u := s.photos[u] + s.requests[u].urls]), u)
    requires Keys(base, s'.photos[u]) == Keys(base, s.photos[u]) + Pending(base, s.requests[u])
    ensures forall v :: v in s'.requests ==> RequestInv(base, s', v)
  {
    hide Keys, AllPublic, Linked, Unshared;
    forall v | v in s'.requests ensures RequestInv(base, s', v) {
      assert RequestInv(base, s, v);
      assert Pending(base, s.requests[v]) !! Pending(base, s.requests[u]);
      RequestKept(base, s, s', v);
    }
  }

  lemma ListedRollback(base: string, s: State, u: UserId, before: seq<Url>)
    requires u in s.photos && u in s.requests && s.requests[u].RollingBack? && s.requests[u].written
    requires s.photos[u] == before + s.requests[u].urls
    ensures RequestInv(base, s, u)
  {
    KeysOfAppend(base, before, s.requests[u].urls);
  }

  // The list is as it was, and the rollback begins.
  lemma GivingUpKeepsInv(base: string, s: State, u: UserId, s': State)
    requires Inv(base, s) && u in s.photos && u in s.requests && s.requests[u].Pushing?
    requires s' == s.(requests := s.requests[u := RollingBack(s.requests[u].urls, false)])
    ensures Inv(base, s')
  {
    hide Keys, AllPublic;
    assert RequestInv(base, s, u);
    forall v | v in s'.requests && v != u ensures RequestInv(base, s', v) {
      assert RequestInv(base, s, v);
      RequestKept(base, s, s', v);
    }
  }

  // A list that shrinks, together with the end of its request, keeps the invariant.
  lemma ShrinkKeepsInv(base: string, s: State, s': State, u: UserId, list: seq<Url>)
    requires Inv(base, s) && u in s.photos && u in s.requests
    requires Keys(base, list) <= Keys(base, s.photos[u]) && |list| <= |s.photos[u]|
    requires s' == Ended(s.(photos := s.photos[u := list]), u)
    ensures Inv(base, s')
  {
    hide Keys;
    forall v | v in s'.requests ensures RequestInv(base, s', v) {
      assert RequestInv(base, s, v);
      RequestKept(base, s, s', v);
    }
  }

  lemma OrderKeepsInv(base: string, s: State, a: Action, s': State)
    requires Inv(base, s) && Next(base, s, a, s') && a.WriteOrder?
    ensures Inv(base, s')
  {
    var u := a.user;
    assert RequestInv(base, s, u);
    OrderHasFewerKeys(base, s.photos[u], s.requests[u].order);
    hide Keys;
    if a.call == Done || a.call.applied {
      ShrinkKeepsInv(base, s, s', u, s.requests[u].order);
    } else {
      EndKeepsInv(base, s, u);
    }
  }

  lemma OrderHasFewerKeys(base: string, stored: seq<Url>, order: seq<Url>)
    requires AcceptedOrder(stored, order)
    ensures Keys(base, order) <= Keys(base, stored)
  {
  }

  lemma PullKeepsInv(base: string, s: State, a: Action, s': State)
    requires Inv(base, s) && Next(base, s, a, s') && a.PullUrl?
    ensures Inv(base, s')
  {
    var u, url := a.user, s.requests[a.user].url;
    assert RequestInv(base, s, u);
    hide Inv, RequestInv, Without, Pending, FreshKey;
    if a.call == Done || a.call.applied {
      PulledListKeepsInv(base, s, u, url);
      var key := GetKeyFromUrl(base, url);
      if a.call == Done && key.Some? && key.value != "" {
        PulledKeyKeepsInv(base, s, u, url, key.value);
        ReplaceRemoved(s.requests, u, Deleting(key.value));
      }
    } else {
      EndKeepsInv(base, s, u);
    }
  }

  lemma ReplaceRemoved(requests: map<UserId, Request>, u: UserId, r: Request)
    ensures (requests - {u})[u := r] == requests[u := r]
  {
  }

  // The state in which a user's list has lost a URL and the request is over.
  function Pulled(s: State, u: UserId, url: Url): State
    requires u in s.photos
  {
    Ended(s.(photos := s.photos[u := Without(s.photos[u], url)]), u)
  }

  lemma PulledListKeepsInv(base: string, s: State, u: UserId, url: Url)
    requires Inv(base, s) && u in s.photos && u in s.requests
    ensures Inv(base, Pulled(s, u, url))
  {
    KeysWithout(base, s.photos[u], url);
    ShrinkKeepsInv(base, s, Pulled(s, u, url), u, Without(s.photos[u], url));
  }

  lemma PulledKeyKeepsInv(base: string, s: State, u: UserId, url: Url, key: string)
    requires Inv(base, s) && u in s.photos && u in s.requests && url in s.photos[u]
    requires GetKeyFromUrl(base, url) == Some(key)
    ensures Inv(base, Pulled(s, u, url).(requests := Pulled(s, u, url).requests[u := Deleting(key)]))
  {
    hide RequestInv, Inv;
    KeysWithout(base, s.photos[u], url);
    PulledWasReferred(base, s.photos[u], url);
    PulledListKeepsInv(base, s, u, url);
    DeletionKeepsInv(base, s, Pulled(s, u, url), u, key);
  }

  lemma PulledWasReferred(base: string, stored: seq<Url>, url: Url)
    requires url in stored
    ensures GetKeyFromUrl(base, url).Some? ==> GetKeyFromUrl(base, url).value in Keys(base, stored)
  {
  }

  lemma OnlyOwnerRefers(base: string, s: State, u: UserId, key: string)
    requires Unshared(base, s.photos) && u in s.photos && key in Keys(base, s.photos[u])
    ensures forall v :: v in s.photos && v != u ==> key !in Keys(base, s.photos[v])
  {
    hide Keys;
  }

  // The key just dropped from the only list that had it may be deleted.
  lemma DeletionKeepsInv(base: string, s: State, ended: State, u: UserId, key: string)
    requires Inv(base, s) && Inv(base, ended) && u in s.photos && u in s.requests && key in Keys(base, s.photos[u])
    requires ended.photos.Keys == s.photos.Keys && ended.requests == s.requests - {u}
    requires forall v :: v in s.photos && v != u ==> ended.photos[v] == s.photos[v]
    requires key !in Keys(base, ended.photos[u])
    ensures Inv(base, ended.(requests := ended.requests[u := Deleting(key)]))
  {
    hide Keys, Linked, Unshared, AllPublic;
    KeyNotPending(base, s, u, key);
    OnlyOwnerRefers(base, s, u, key);
    var s' := ended.(requests := ended.requests[u := Deleting(key)]);
    assert RequestInv(base, s', u);
    OthersWhileDeleting(base, ended, u, key);
  }

  lemma OthersWhileDeleting(base: string, ended: State, u: UserId, key: string)
    requires Inv(base, ended) && u !in ended.requests
    ensures var s' := ended.(requests := ended.requests[u := Deleting(key)]);
            forall v :: v in s'.requests && v != u ==> RequestInv(base, s', v)
  {
    hide Keys, Pending, Linked, Unshared, Disjoint, AllPublic;
    var s' := ended.(requests := ended.requests[u := Deleting(key)]);
    forall v | v in s'.requests && v != u ensures RequestInv(base, s', v) {
      assert RequestInv(base, ended, v);
      RequestKept(base, ended, s', v);
    }
  }

  lemma KeyNotPending(base: string, s: State, u: UserId, key: string)
    requires Inv(base, s) && u in s.photos && key in Keys(base, s.photos[u])
    ensures forall v :: v in s.requests ==> key !in Pending(base, s.requests[v])
  {
    hide Keys, Pending, Linked, Unshared, Disjoint;
    forall v | v in s.requests ensures key !in Pending(base, s.requests[v]) {
      assert RequestInv(base, s, v);
    }
  }

  // A step that neither looks at the objects nor touches them.
  predicate ListsOnly(a: Action) {
    !a.PutObject? && !a.Rollback? && !a.DeleteObject?
  }

  lemma ListStepKeepsInv(base: string, s: State, a: Action, s': State)
    requires Inv(base, s) && Next(base, s, a, s') && ListsOnly(a)
    ensures Inv(base, s')
  {
    hide Inv;
    match a
    case BeginUpload(_, _) => BeginsKeepInv(base, s, a, s');
    case BeginDelete(_, _) => BeginsKeepInv(base, s, a, s');
    case BeginReorder(_, _) => BeginsKeepInv(base, s, a, s');
    case Die(u) => EndKeepsInv(base, s, u);
    case PushUrls(_, _) => PushKeepsInv(base, s, a, s');
    case PullUrl(_, _) => PullKeepsInv(base, s, a, s');
    case WriteOrder(_, _) => OrderKeepsInv(base, s, a, s');
  }

  /******* Lost objects *******/

  // The push failed although the list was written, so this rollback deletes objects of listed photos.
  predicate RollsBackListed(s: State, a: Action) {
    a.Rollback? && a.user in s.requests && s.requests[a.user].RollingBack? && s.requests[a.user].written
  }

  // The keys that such rollbacks have deleted and nobody has stored since.
  function LostAfter(s: State, a: Action, s': State, lost: set<string>): set<string> {
    (if RollsBackListed(s, a) then lost + a.gone else lost) - s'.objects
  }

  function Restored(s: State, lost: set<string>): State {
    s.(objects := s.objects + lost)
  }

  /** Every step keeps the invariant, but for the objects that rollbacks of listed photos have deleted. */
  lemma StepKeepsInv(base: string, s: State, a: Action, s': State, lost: set<string>)
    requires Inv(base, Restored(s, lost)) && Next(base, s, a, s')
    ensures Inv(base, Restored(s', LostAfter(s, a, s', lost)))
  {
    var before, after := Restored(s, lost), Restored(s', LostAfter(s, a, s', lost));
    var u := a.user;
    if ListsOnly(a) {
      assert s'.objects == s.objects && after.objects == before.objects;
      ListStepOnRestored(base, s, a, s', lost);
      ListStepKeepsInv(base, before, a, after);
    } else {
      assert RequestInv(base, before, u);
      hide Inv;
      if a.PutObject? {
        assert Unused(base, before, PhotoKey(u, a.uuid));
        PutKeepsInv(base, before, u, PhotoKey(u, a.uuid), a.call, after);
      } else {
        ObjectsDeletedKeepInv(base, before, u, after);
      }
    }
  }

  lemma ListStepOnRestored(base: string, s: State, a: Action, s': State, lost: set<string>)
    requires Next(base, s, a, s') && ListsOnly(a)
    ensures Next(base, Restored(s, lost), a, s'.(objects := Restored(s, lost).objects))
  {
    hide FreshKey;
  }

  /******* Runs *******/

  ghost predicate IsRun(base: string, run: seq<State>, actions: seq<Action>) {
    && |run| == |actions| + 1
    && forall n :: 0 <= n < |actions| ==> Next(base, run[n], actions[n], run[n + 1])
  }

  ghost predicate Initial(base: string, s: State) {
    Inv(base, s) && s.requests == map[]
  }

  // The lost keys in the n-th state of a run.
  function Lost(run: seq<State>, actions: seq<Action>, n: nat): set<string>
    requires |run| == |actions| + 1 && n < |run|
  {
    if n == 0 then {} else LostAfter(run[n - 1], actions[n - 1], run[n], Lost(run, actions, n - 1))
  }

  lemma {:induction false} InvHolds(base: string, run: seq<State>, actions: seq<Action>, n: nat)
    requires IsRun(base, run, actions) && Initial(base, run[0]) && n < |run|
    ensures Inv(base, Restored(run[n], Lost(run, actions, n))) && Lost(run, actions, n) !! run[n].objects
  {
    hide Next, Inv;
    if n > 0 {
      InvHolds(base, run, actions, n - 1);
      StepKeepsInv(base, run[n - 1], actions[n - 1], run[n], Lost(run, actions, n - 1));
    } else {
      assert Restored(run[0], {}) == run[0];
    }
  }

  /**
   * Whatever call fails, with or without effect, and whoever dies: a listed photo lacks its object if and only if the
   * rollback after a lost push deleted it, and no list grows beyond five.
   */
  lemma PhotosStayLinked(base: string, run: seq<State>, actions: seq<Action>, n: nat)
    requires IsRun(base, run, actions) && Initial(base, run[0]) && n < |run|
    ensures forall u, url :: u in run[n].photos && url in run[n].photos[u] && GetKeyFromUrl(base, url).Some? ==>
              (GetKeyFromUrl(base, url).value in run[n].objects <==>
               GetKeyFromUrl(base, url).value !in Lost(run, actions, n))
    ensures forall u :: u in run[n].photos ==> |run[n].photos[u]| <= 5
  {
    InvHolds(base, run, actions, n);
    forall u, url | u in run[n].photos && url in run[n].photos[u] && GetKeyFromUrl(base, url).Some?
      ensures GetKeyFromUrl(base, url).value in run[n].objects + Lost(run, actions, n)
    {
      assert GetKeyFromUrl(base, url).value in Keys(base, run[n].photos[u]);
    }
  }

  /** The lists are linked if and only if no lost key is still listed. */
  lemma LinkedIffNothingLost(base: string, run: seq<State>, actions: seq<Action>, n: nat)
    requires IsRun(base, run, actions) && Initial(base, run[0]) && n < |run|
    ensures Linked(base, run[n].photos, run[n].objects) <==>
            forall u :: u in run[n].photos ==> Keys(base, run[n].photos[u]) !! Lost(run, actions, n)
    ensures Linked(base, run[n].photos, run[n].objects) && run[n].requests == map[] ==> Initial(base, run[n])
  {
    InvHolds(base, run, actions, n);
    hide Keys, RequestInv;
  }

  /** Nothing is lost in a run whose rollbacks of listed photos, if any, deleted nothing. */
  lemma {:induction false} NothingLost(run: seq<State>, actions: seq<Action>, n: nat)
    requires |run| == |actions| + 1 && n < |run|
    requires forall m :: 0 <= m < n && RollsBackListed(run[m], actions[m]) ==> actions[m].gone == {}
    ensures Lost(run, actions, n) == {}
  {
    if n > 0 {
      NothingLost(run, actions, n - 1);
    }
  }

  predicate LosesPush(a: Action) {
    a.PushUrls? && a.call == Failed(true)
  }

  lemma {:induction false} NoListedRollback(base: string, run: seq<State>, actions: seq<Action>, n: nat)
    requires IsRun(base, run, actions) && run[0].requests == map[] && n < |run|
    requires forall m :: 0 <= m < n ==> !LosesPush(actions[m])
    ensures forall u :: u in run[n].requests && run[n].requests[u].RollingBack? ==> !run[n].requests[u].written
  {
    hide FreshKey;
    if n > 0 {
      NoListedRollback(base, run, actions, n - 1);
      assert Next(base, run[n - 1], actions[n - 1], run[n]);
    }
  }

  /** In a run that loses no push every list is linked in every state, whatever else fails and whoever dies. */
  lemma NoLostPushKeepsLinked(base: string, run: seq<State>, actions: seq<Action>, n: nat)
    requires IsRun(base, run, actions) && Initial(base, run[0]) && n < |run|
    requires forall m :: 0 <= m < n ==> !LosesPush(actions[m])
    ensures Lost(run, actions, n) == {} && Linked(base, run[n].photos, run[n].objects)
  {
    hide Next;
    forall m | 0 <= m < n ensures !RollsBackListed(run[m], actions[m]) {
      NoListedRollback(base, run, actions, m);
    }
    NothingLost(run, actions, n);
    LinkedIffNothingLost(base, run, actions, n);
  }

  /******* Reordering *******/

  /**
   * An accepted order without repeats is a permutation of the stored list; when the stored list has no repeats,
   * exactly those orders are.
   */
  lemma ReorderIsPermutation(stored: seq<Url>, order: seq<Url>)
    requires AcceptedOrder(stored, order)
    ensures NoRepeats(order) ==> Permutation(order, stored)
    ensures NoRepeats(stored) ==> (Permutation(order, stored) <==> NoRepeats(order))
  {
    if NoRepeats(order) {
      Pigeonhole(order, stored);
    }
    if NoRepeats(stored) && Permutation(order, stored) {
      SameElements(stored, order);
    }
  }

  // As many distinct items as there are places, all from the places: each place is used once.
  lemma {:induction false} Pigeonhole(order: seq<Url>, stored: seq<Url>)
    requires NoRepeats(order) && |order| == |stored|
    requires forall url :: url in order ==> url in stored
    ensures Permutation(order, stored)
  {
    if order != [] {
      assert order[0] in stored;
      var i :| 0 <= i < |stored| && stored[i] == order[0];
      var rest := stored[..i] + stored[i + 1..];
      assert stored == stored[..i] + [stored[i]] + stored[i + 1..];
      assert order == [order[0]] + order[1..];
      forall url | url in order[1..] ensures url in rest {
        assert url in stored && url != stored[i];
      }
      Pigeonhole(order[1..], rest);
      calc {
        multiset(stored);
        multiset(stored[..i]) + multiset([stored[i]]) + multiset(stored[i + 1..]);
        multiset(rest) + multiset([order[0]]);
        multiset(order[1..]) + multiset([order[0]]);
        multiset(order);
      }
    }
  }

  /******* A push that fails after taking effect *******/

  // The state after a lost push and the rollback that follows.
  ghost function LostPush(s: State, u: UserId, gone: set<string>): State
    requires u in s.photos && u in s.requests && s.requests[u].Pushing?
  {
    Ended(State(s.photos[u := s.photos[u] + s.requests[u].urls], s.objects - gone, s.requests), u)
  }

  /** Before the push: losing it is harmless, whatever the rollback manages to delete, exactly when no photo is uploaded. */
  lemma LostPushIsHarmlessIffEmpty(base: string, s: State, u: UserId)
    requires Inv(base, s) && u in s.photos && u in s.requests && s.requests[u].Pushing?
    ensures (forall gone :: gone <= Keys(base, s.requests[u].urls) ==>
               Linked(base, LostPush(s, u, gone).photos, LostPush(s, u, gone).objects)) <==> s.requests[u].urls == []
  {
    var urls := s.requests[u].urls;
    var all := Keys(base, urls);
    assert RequestInv(base, s, u);
    forall gone | gone <= all ensures Linked(base, LostPush(s, u, gone).photos, LostPush(s, u, gone).objects) <==> gone == {} {
      LostPushBreaksLink(base, s, u, gone);
    }
    if urls != [] {
      assert GetKeyFromUrl(base, urls[0]).value in all;
      assert !Linked(base, LostPush(s, u, all).photos, LostPush(s, u, all).objects);
    } else {
      KeysOfNone(base);
    }
  }

  /** With the rollback known: it leaves the lists linked exactly when it deletes none of the uploaded objects. */
  lemma LostPushBreaksLink(base: string, s: State, u: UserId, gone: set<string>)
    requires Inv(base, s) && u in s.photos && u in s.requests && s.requests[u].Pushing?
    requires gone <= Keys(base, s.requests[u].urls)
    ensures Linked(base, LostPush(s, u, gone).photos, LostPush(s, u, gone).objects) <==> gone == {}
  {
    assert RequestInv(base, s, u);
    KeysOfAppend(base, s.photos[u], s.requests[u].urls);
    var after := LostPush(s, u, gone);
    if gone != {} {
      var key :| key in gone;
      assert key in Keys(base, after.photos[u]) && key !in after.objects;
    }
  }

  /** Such a run exists: one photo is stored, its push is lost and the rollback deletes it. */
  lemma LostPushRun() returns (base: string, run: seq<State>, actions: seq<Action>)
    ensures IsRun(base, run, actions) && Initial(base, run[0]) && |actions| == 4
    ensures actions[2] == PushUrls("1", Failed(true)) && actions[3] == Rollback("1", Lost(run, actions, 4))
    ensures Lost(run, actions, 4) != {} && !Linked(base, run[4].photos, run[4].objects)
  {
    base := "b";
    var key := PhotoKey("1", "u");
    var urls := [GetPublicUrl(base, key)];
    KeyIffPublicUrl(base, urls[0], key);
    var s0 := State(map["1" := []], {}, map[]);
    var s1 := State(map["1" := []], {}, map["1" := Uploading(1, [])]);
    var s2 := State(map["1" := []], {key}, map["1" := Pushing(urls)]);
    var s3 := State(map["1" := urls], {key}, map["1" := RollingBack(urls, true)]);
    var s4 := State(map["1" := urls], {}, map[]);
    run := [s0, s1, s2, s3, s4];
    actions := [BeginUpload("1", 1), PutObject("1", "u", Done), PushUrls("1", Failed(true)), Rollback("1", {key})];
    assert Keys(base, urls) == {key} by {
      KeysOfOne(base, key);
    }
    assert [] + urls == urls;
    assert Next(base, s0, actions[0], s1);
    assert Next(base, s1, actions[1], s2);
    assert Next(base, s2, actions[2], s3);
    assert Next(base, s3, actions[3], s4);
    NothingLost(run, actions, 3);
    assert Lost(run, actions, 4) == {key};
  }
}
