// The photo requests as written: one request at a time, each store call given with the way it ends.
module UploadService {
  import opened Documents
  import opened Ordering
  import opened PublicUrls
  import opened PhotoProtocol

  datatype UploadResult = NotFound | MaxPhotosExceeded | UploadFailed | SaveFailed | Uploaded(urls: seq<Url>)

  datatype DeleteResult = DeleteUserNotFound | PhotoNotFound | PullFailed | Deleted

  datatype ReorderResult = ReorderUserNotFound | InvalidPhotos | PhotoCountMismatch | OrderNotSaved | Reordered

  ghost predicate Extends(base: string, run: seq<State>, actions: seq<Action>, start: State, end: State) {
    IsRun(base, run, actions) && run[0] == start && run[|run| - 1] == end
  }

  lemma RunExtends(base: string, run: seq<State>, actions: seq<Action>, start: State, end: State, a: Action, next: State)
    requires Extends(base, run, actions, start, end) && Next(base, end, a, next)
    ensures Extends(base, run + [next], actions + [a], start, next)
  {
    var longer, more := run + [next], actions + [a];
    forall n | 0 <= n < |more| ensures Next(base, longer[n], more[n], longer[n + 1]) {
      if n < |actions| {
        assert Next(base, run[n], actions[n], run[n + 1]);
      }
    }
  }

  // The URLs that uploading under the given uuids yields.
  function UrlsOf(base: string, userId: UserId, uuids: seq<string>): (urls: seq<Url>)
    ensures |urls| == |uuids|
  {
    seq(|uuids|, i requires 0 <= i < |uuids| => GetPublicUrl(base, PhotoKey(userId, uuids[i])))
  }

  function KeysFor(userId: UserId, uuids: seq<string>): set<string> {
    set uuid | uuid in uuids :: PhotoKey(userId, uuid)
  }

  // The first call that did not succeed.
  function FirstFailure(calls: seq<Call>): (f: nat)
    ensures f <= |calls| && (forall i :: 0 <= i < f ==> calls[i] == Done) && (f < |calls| ==> calls[f] != Done)
  {
    if calls == [] || calls[0] != Done then 0 else 1 + FirstFailure(calls[1..])
  }

  class UploadService {
    const publicUrl: string
    var photos: map<UserId, seq<Url>>
    var objects: set<string>

    // The execution of the protocol that the current request performs.
    ghost var run: seq<State>
    ghost var actions: seq<Action>
    ghost var current: State

    constructor (publicUrl: string, photos: map<UserId, seq<Url>>, objects: set<string>)
      ensures this.publicUrl == publicUrl && this.photos == photos && this.objects == objects
    {
      this.publicUrl, this.photos, this.objects := publicUrl, photos, objects;
      run, actions := [], [];
    }

    /** The request begun in `start` has come to `current`, with the stores as they are. */
    ghost predicate Performing(start: State)
      reads this
    {
      && Extends(publicUrl, run, actions, start, current)
      && current.photos == photos && current.objects == objects
    }

    /** The request is over. */
    ghost predicate Performed(start: State)
      reads this
    {
      Performing(start) && current.requests == map[]
    }

    ghost method Enter()
      modifies `run, `actions, `current
      ensures Performed(State(photos, objects, map[])) && current == State(photos, objects, map[])
    {
      current := State(photos, objects, map[]);
      run, actions := [current], [];
    }

    ghost method Step(start: State, a: Action, next: State)
      requires Extends(publicUrl, run, actions, start, current) && Next(publicUrl, current, a, next)
      requires next.photos == photos && next.objects == objects
      modifies `run, `actions, `current
      ensures Performing(start) && current == next
    {
      RunExtends(publicUrl, run, actions, start, current, a, next);
      run, actions, current := run + [next], actions + [a], next;
    }

    // Best effort: whatever is not deleted is left for the sweep.
    method RollbackUploads(userId: UserId, urls: seq<Url>, gone: set<string>, ghost written: bool, ghost start: State)
      requires Performing(start) && userId in photos
      requires current.requests == map[userId := RollingBack(urls, written)]
      modifies `objects, `run, `actions, `current
      ensures Performed(start) && photos == old(photos)
      ensures objects == old(objects) - gone * Keys(publicUrl, urls)
    {
      ghost var before := current;
      objects := objects - gone * Keys(publicUrl, urls);
      Step(start, Rollback(userId, gone * Keys(publicUrl, urls)), Ended(before.(objects := objects), userId));
    }

    // The puts, one after another, with the rollback when one fails.
    method StorePhotos(userId: UserId, uuids: seq<string>, puts: seq<Call>, gone: set<string>, ghost start: State)
      returns (stored: bool, uploadedUrls: seq<Url>)
      requires |puts| == |uuids| && NoRepeats(uuids) && AllFresh(publicUrl, start, userId, uuids)
      requires Performed(start) && current == start && userId in photos && |photos[userId]| + |uuids| <= MAX_PHOTOS
      modifies `objects, `run, `actions, `current
      ensures stored <==> FirstFailure(puts) == |puts|
      ensures stored ==>
                && Performing(start) && current.requests == map[userId := Pushing(uploadedUrls)]
                && uploadedUrls == UrlsOf(publicUrl, userId, uuids) && objects == old(objects) + KeysFor(userId, uuids)
      ensures !stored ==>
                var f := FirstFailure(puts);
                && Performed(start)
                && objects == old(objects) + (KeysFor(userId, uuids[..f]) - gone)
                              + (if puts[f].applied then {PhotoKey(userId, uuids[f])} else {})
    {
      uploadedUrls := [];
      Step(start, BeginUpload(userId, |uuids|), current.(requests := map[userId := NextUpload(|uuids|, [])]));
      assert current == Midway(publicUrl, start, userId, uuids, 0);

      for i := 0 to |uuids|
        invariant Performing(start) && current == Midway(publicUrl, start, userId, uuids, i)
        invariant uploadedUrls == UrlsOf(publicUrl, userId, uuids[..i])
        invariant forall j :: 0 <= j < i ==> puts[j] == Done
      {
        hide IsRun, Next, FreshKey, Extends, AllFresh, KeysFor, UrlsOf, Keys;
        var key := PhotoKey(userId, uuids[i]);
        PutStep(publicUrl, start, userId, uuids, i, puts[i]);
        KeysGrow(publicUrl, start, userId, uuids, i);
        KeysOfUrls(publicUrl, userId, uuids[..i]);
        if puts[i] != Done {
          if puts[i].applied {
            objects := objects + {key};
          }
          Step(start, PutObject(userId, uuids[i], puts[i]), State(photos, objects, map[userId := RollingBack(uploadedUrls, false)]));
          assert FirstFailure(puts) == i;
          RollbackUploads(userId, uploadedUrls, gone, false, start);
          return false, [];
        }
        objects := objects + {key};
        uploadedUrls := uploadedUrls + [GetPublicUrl(publicUrl, key)];
        assert uploadedUrls == UrlsOf(publicUrl, userId, uuids[..i + 1]) by { UrlsGrow(publicUrl, userId, uuids, i); }
        Step(start, PutObject(userId, uuids[i], Done), Midway(publicUrl, start, userId, uuids, i + 1));
      }
      assert uuids[..|uuids|] == uuids;
      return true, uploadedUrls;
    }

    // The `$push`, with the rollback of a failed one.
    method SavePhotos(userId: UserId, urls: seq<Url>, push: Call, gone: set<string>, ghost start: State) returns (saved: bool)
      requires Performing(start) && userId in photos && current.requests == map[userId := Pushing(urls)]
      modifies `photos, `objects, `run, `actions, `current
      ensures Performed(start) && (saved <==> push == Done)
      ensures photos == if push == Done || push.applied then old(photos)[userId := old(photos)[userId] + urls] else old(photos)
      ensures objects == if saved then old(objects) else old(objects) - gone * Keys(publicUrl, urls)
    {
      ghost var before := current;
      if push == Done || push.applied {
        photos := photos[userId := photos[userId] + urls];
      }
      if push.Failed? {
        ghost var next := State(photos, objects, before.requests[userId := RollingBack(urls, push.applied)]);
        Step(start, PushUrls(userId, push), next);
        RollbackUploads(userId, urls, gone, push.applied, start);
        return false;
      }
      Step(start, PushUrls(userId, push), Ended(before.(photos := photos), userId));
      return true;
    }

    /**
     * Performs an execution of the protocol. All photos are stored and listed, or the list is as before unless the
     * failed push took effect. `puts`, `push` and `gone` say how the store calls end and what a rollback deletes.
     */
    method UploadPhotos(userId: UserId, uuids: seq<string>, puts: seq<Call>, push: Call, gone: set<string>)
      returns (result: UploadResult)
      requires |puts| == |uuids| && NoRepeats(uuids)
      requires AllFresh(publicUrl, State(photos, objects, map[]), userId, uuids)
      modifies this
      ensures Performed(State(old(photos), old(objects), map[]))
      ensures result.NotFound? <==> userId !in old(photos)
      ensures result.MaxPhotosExceeded? <==> userId in old(photos) && |old(photos)[userId]| + |uuids| > 5
      ensures result.NotFound? || result.MaxPhotosExceeded? ==> objects == old(objects)
      ensures !result.NotFound? && !result.MaxPhotosExceeded? ==>
                && (result.UploadFailed? <==> exists i :: 0 <= i < |puts| && puts[i] != Done)
                && (result.SaveFailed? <==> !result.UploadFailed? && push.Failed?)
      ensures result.Uploaded? ==>
                && result.urls == UrlsOf(publicUrl, userId, uuids)
                && (forall i :: 0 <= i < |uuids| ==> result.urls[i] == publicUrl + "/users/" + userId + "/" + uuids[i] + ".jpg")
                && photos == old(photos)[userId := old(photos)[userId] + result.urls]
                && objects == old(objects) + KeysFor(userId, uuids)
      ensures result.SaveFailed? ==>
                && photos == (if push.applied then old(photos)[userId := old(photos)[userId] + UrlsOf(publicUrl, userId, uuids)]
                              else old(photos))
                && objects == old(objects) + (KeysFor(userId, uuids) - gone)
      ensures !result.Uploaded? && !result.SaveFailed? ==> photos == old(photos)
      ensures result.UploadFailed? ==>
                var f := FirstFailure(puts);
                && f < |puts|
                && objects == old(objects) + (KeysFor(userId, uuids[..f]) - gone)
                              + (if puts[f].applied then {PhotoKey(userId, uuids[f])} else {})
    {
      ghost var start := State(photos, objects, map[]);
      Enter();
      if userId !in photos {
        return NotFound;
      }
      if |photos[userId]| + |uuids| > MAX_PHOTOS {
        return MaxPhotosExceeded;
      }
      var stored, uploadedUrls := StorePhotos(userId, uuids, puts, gone, start);
      if !stored {
        return UploadFailed;
      }
      KeysOfUrls(publicUrl, userId, uuids);
      UrlsSpelledOut(publicUrl, userId, uuids);
      FreshKeysUnstored(publicUrl, start, userId, uuids);
      var saved := SavePhotos(userId, uploadedUrls, push, gone, start);
      if !saved {
        return SaveFailed;
      }
      return Uploaded(uploadedUrls);
    }

    /** Performs an execution of the protocol: the list loses the URL first, then the object goes if it can. */
    method DeletePhoto(userId: UserId, photoPath: Url, pull: Call, delete: Call) returns (result: DeleteResult)
      modifies this
      ensures Performed(State(old(photos), old(objects), map[]))
      ensures result.DeleteUserNotFound? <==> userId !in old(photos)
      ensures result.PhotoNotFound? <==> userId in old(photos) && photoPath !in old(photos)[userId]
      ensures result.PullFailed? <==> userId in old(photos) && photoPath in old(photos)[userId] && pull.Failed?
      ensures !result.Deleted? ==> objects == old(objects)
      ensures result.DeleteUserNotFound? || result.PhotoNotFound? ==> photos == old(photos)
      ensures result.PullFailed? && pull == Failed(false) ==> photos == old(photos)
      // A pull that took effect removes the URL wherever it stands and leaves the others in their order.
      ensures result.Deleted? || (result.PullFailed? && pull == Failed(true)) ==>
                && userId in photos && photos == old(photos)[userId := photos[userId]]
                && KeepsOrder(old(photos)[userId], photoPath, photos[userId])
                && forall pre, post :: old(photos)[userId] == pre + [photoPath] + post && photoPath !in pre && photoPath !in post ==>
                     photos[userId] == pre + post
      ensures result.Deleted? ==>
                objects == if exists key :: key != "" && photoPath == publicUrl + "/" + key && (delete == Done || delete.applied)
                           then set o | o in old(objects) && publicUrl + "/" + o != photoPath else old(objects)
    {
      hide Without, KeepsOrder, Extends, GetKeyFromUrl;
      KeptWithout(photos, userId, photoPath);
      DeletedObject(publicUrl, photoPath, objects);
      ghost var start := State(photos, objects, map[]);
      Enter();
      if userId !in photos {
        return DeleteUserNotFound;
      }
      if photoPath !in photos[userId] {
        return PhotoNotFound;
      }
      Step(start, BeginDelete(userId, photoPath), current.(requests := map[userId := Pulling(photoPath)]));

      ghost var before := current;
      if pull == Done || pull.applied {
        photos := photos[userId := Without(photos[userId], photoPath)];
      }
      if pull.Failed? {
        Step(start, PullUrl(userId, pull), Ended(before.(photos := photos), userId));
        return PullFailed;
      }
      var key := GetKeyFromUrl(publicUrl, photoPath);
      if key.None? || key.value == "" {
        Step(start, PullUrl(userId, pull), Ended(before.(photos := photos), userId));
        return Deleted;
      }
      Step(start, PullUrl(userId, pull), State(photos, objects, map[userId := Deleting(key.value)]));

      before := current;
      if delete == Done || delete.applied {
        objects := objects - {key.value};
      }
      Step(start, DeleteObject(userId, delete), Ended(before.(objects := objects), userId));
      return Deleted;
    }

    /** Performs an execution of the protocol: the list is replaced by an order of the same length made of its URLs. */
    method ReorderPhotos(userId: UserId, photoOrder: seq<Url>, write: Call) returns (result: ReorderResult)
      modifies this
      ensures Performed(State(old(photos), old(objects), map[])) && objects == old(objects)
      ensures result.ReorderUserNotFound? <==> userId !in old(photos)
      ensures result.InvalidPhotos? <==> userId in old(photos) && exists url :: url in photoOrder && url !in old(photos)[userId]
      ensures result.PhotoCountMismatch? <==>
              && userId in old(photos) && (forall url :: url in photoOrder ==> url in old(photos)[userId])
              && |photoOrder| != |old(photos)[userId]|
      ensures result.Reordered? ==> write == Done && photos == old(photos)[userId := photoOrder]
      ensures result.OrderNotSaved? ==>
                write != Done && photos == if write.applied then old(photos)[userId := photoOrder] else old(photos)
      ensures !result.Reordered? && !result.OrderNotSaved? ==> photos == old(photos)
    {
      ghost var start := State(photos, objects, map[]);
      Enter();
      if userId !in photos {
        return ReorderUserNotFound;
      }
      if exists url :: url in photoOrder && url !in photos[userId] {
        return InvalidPhotos;
      }
      if |photoOrder| != |photos[userId]| {
        return PhotoCountMismatch;
      }
      Step(start, BeginReorder(userId, photoOrder), current.(requests := map[userId := Reordering(photoOrder)]));

      ghost var before := current;
      if write == Done || write.applied {
        photos := photos[userId := photoOrder];
      }
      Step(start, WriteOrder(userId, write), Ended(before.(photos := photos), userId));
      return if write == Done then Reordered else OrderNotSaved;
    }
  }

  lemma KeptWithout(photos: map<UserId, seq<Url>>, userId: UserId, url: Url)
    ensures userId in photos ==>
              var kept := Without(photos[userId], url);
              && KeepsOrder(photos[userId], url, kept)
              && forall pre, post :: photos[userId] == pre + [url] + post && url !in pre && url !in post ==> kept == pre + post
  {
    if userId in photos {
      var at := WithoutKeepsOrder(photos[userId], url);
      forall pre, post | photos[userId] == pre + [url] + post && url !in pre && url !in post
        ensures Without(photos[userId], url) == pre + post
      {
        WithoutOnce(pre, url, post);
      }
    }
  }

  // The object of a URL is the one whose public URL it is.
  lemma DeletedObject(base: string, url: Url, objects: set<string>)
    ensures var key := GetKeyFromUrl(base, url);
            && (key.Some? && key.value != "" <==> exists k :: k != "" && url == base + "/" + k)
            && (key.Some? ==> objects - {key.value} == set o | o in objects && base + "/" + o != url)
  {
    var key := GetKeyFromUrl(base, url);
    forall k ensures key == Some(k) <==> url == base + "/" + k {
      KeyIffPublicUrl(base, url, k);
    }
  }

  lemma UrlsSpelledOut(base: string, userId: UserId, uuids: seq<string>)
    ensures forall i :: 0 <= i < |uuids| ==> UrlsOf(base, userId, uuids)[i] == base + "/users/" + userId + "/" + uuids[i] + ".jpg"
  {
    forall i | 0 <= i < |uuids|
      ensures UrlsOf(base, userId, uuids)[i] == base + "/users/" + userId + "/" + uuids[i] + ".jpg"
    {
      assert base + "/" + ("users/" + userId + "/" + uuids[i] + ".jpg") == base + "/users/" + userId + "/" + uuids[i] + ".jpg";
    }
  }

  lemma KeysOfUrls(base: string, userId: UserId, uuids: seq<string>)
    ensures Keys(base, UrlsOf(base, userId, uuids)) == KeysFor(userId, uuids)
  {
    var urls := UrlsOf(base, userId, uuids);
    forall i | 0 <= i < |uuids| ensures GetKeyFromUrl(base, urls[i]) == Some(PhotoKey(userId, uuids[i])) {
      KeyIffPublicUrl(base, urls[i], PhotoKey(userId, uuids[i]));
    }
    forall key | key in KeysFor(userId, uuids) ensures key in Keys(base, urls) {
      var i :| 0 <= i < |uuids| && PhotoKey(userId, uuids[i]) == key;
      assert urls[i] in urls;
    }
  }

  ghost predicate AllFresh(base: string, start: State, userId: UserId, uuids: seq<string>) {
    forall i :: 0 <= i < |uuids| ==> FreshKey(base, start, PhotoKey(userId, uuids[i]))
  }

  lemma PhotoKeyInjective(userId: UserId, a: string, b: string)
    requires PhotoKey(userId, a) == PhotoKey(userId, b)
    ensures a == b
  {
    var n := |UserPrefix(userId)|;
    assert PhotoKey(userId, a)[n..n + |a|] == a && PhotoKey(userId, b)[n..n + |b|] == b;
  }

  // The state after the first i uploads.
  function Midway(base: string, start: State, userId: UserId, uuids: seq<string>, i: nat): State
    requires i <= |uuids|
  {
    State(start.photos, start.objects + KeysFor(userId, uuids[..i]),
          map[userId := NextUpload(|uuids| - i, UrlsOf(base, userId, uuids[..i]))])
  }

  lemma KeysGrow(base: string, start: State, userId: UserId, uuids: seq<string>, i: nat)
    requires i < |uuids| && NoRepeats(uuids) && AllFresh(base, start, userId, uuids)
    ensures KeysFor(userId, uuids[..i + 1]) == KeysFor(userId, uuids[..i]) + {PhotoKey(userId, uuids[i])}
    ensures PhotoKey(userId, uuids[i]) !in KeysFor(userId, uuids[..i])
    ensures KeysFor(userId, uuids[..i + 1]) <= KeysFor(userId, uuids)
    ensures KeysFor(userId, uuids[..i + 1]) !! start.objects
  {
    assert uuids[..i + 1] == uuids[..i] + [uuids[i]];
    if PhotoKey(userId, uuids[i]) in KeysFor(userId, uuids[..i]) {
      var j :| 0 <= j < i && PhotoKey(userId, uuids[j]) == PhotoKey(userId, uuids[i]);
      PhotoKeyInjective(userId, uuids[j], uuids[i]);
      assert false;
    }
    forall j | 0 <= j <= i ensures PhotoKey(userId, uuids[j]) !in start.objects {
      assert FreshKey(base, start, PhotoKey(userId, uuids[j]));
    }
  }

  lemma FreshKeysUnstored(base: string, start: State, userId: UserId, uuids: seq<string>)
    requires AllFresh(base, start, userId, uuids)
    ensures KeysFor(userId, uuids) !! start.objects
  {
    forall i | 0 <= i < |uuids| ensures PhotoKey(userId, uuids[i]) !in start.objects {
      assert FreshKey(base, start, PhotoKey(userId, uuids[i]));
    }
  }

  lemma UrlsGrow(base: string, userId: UserId, uuids: seq<string>, i: nat)
    requires i < |uuids|
    ensures UrlsOf(base, userId, uuids[..i + 1]) ==
            UrlsOf(base, userId, uuids[..i]) + [GetPublicUrl(base, PhotoKey(userId, uuids[i]))]
  {
  }

  // One more put, and where it leads.
  lemma PutStep(base: string, start: State, userId: UserId, uuids: seq<string>, i: nat, call: Call)
    requires i < |uuids| && NoRepeats(uuids) && AllFresh(base, start, userId, uuids)
    requires userId in start.photos
    ensures var here := Midway(base, start, userId, uuids, i);
            var key := PhotoKey(userId, uuids[i]);
            Next(base, here, PutObject(userId, uuids[i], call),
                 if call == Done then Midway(base, start, userId, uuids, i + 1)
                 else State(start.photos, if call.applied then here.objects + {key} else here.objects,
                            map[userId := RollingBack(UrlsOf(base, userId, uuids[..i]), false)]))
  {
    KeysGrow(base, start, userId, uuids, i);
    KeysOfUrls(base, userId, uuids[..i]);
    var here, key := Midway(base, start, userId, uuids, i), PhotoKey(userId, uuids[i]);
    assert FreshKey(base, start, key);
    assert FreshKey(base, here, key);
    assert uuids[..i + 1] == uuids[..i] + [uuids[i]];
    assert UrlsOf(base, userId, uuids[..i + 1]) == UrlsOf(base, userId, uuids[..i]) + [GetPublicUrl(base, key)];
    assert here.objects + {key} == Midway(base, start, userId, uuids, i + 1).objects;
    forall r: Request ensures here.requests[userId := r] == map[userId := r] {
    }
  }
}
