// The sweep that deletes stored objects no user's photo list refers to.
module OrphanSweep {
  import opened Documents
  import opened Ordering
  import opened PublicUrls
  import opened PhotoProtocol

  const DELETE_BATCH_SIZE := 1000
  const USERS_PREFIX := "users/"

  // S3 answers a listing in pages; the token of a page says where the next one starts.
  datatype Page = Page(contents: seq<string>, nextToken: Option<nat>)

  datatype AuditResult = AuditResult(totalObjects: nat, referencedObjects: nat, orphanKeys: seq<string>)

  /******* What the sweep must delete *******/

  // All keys that the users' lists refer to, read with the base as configured.
  ghost function Referenced(configured: string, photos: map<UserId, seq<Url>>): set<string> {
    set u, key | u in photos && key in ReferencedBy(configured, photos[u]) :: key
  }

  ghost function ReferencedBy(configured: string, urls: seq<Url>): set<string> {
    set url | url in urls && KeyFromUrl(url, configured).Some? && KeyFromUrl(url, configured).value != "" ::
      KeyFromUrl(url, configured).value
  }

  ghost function Orphans(configured: string, photos: map<UserId, seq<Url>>, objects: set<string>): set<string> {
    set key | key in objects && StartsWith(key, USERS_PREFIX) && key !in Referenced(configured, photos)
  }

  lemma ReferencedAreKeys(configured: string, photos: map<UserId, seq<Url>>)
    ensures forall key :: key in Referenced(configured, photos) <==>
              key != "" && exists u :: u in photos && key in Keys(StripSlash(configured), photos[u])
  {
    var base := StripSlash(configured);
    forall key, u | u in photos && key != "" && key in Keys(base, photos[u]) ensures key in Referenced(configured, photos) {
      var url :| url in photos[u] && GetKeyFromUrl(base, url) == Some(key);
      assert KeyFromUrl(url, configured) == Some(key);
      assert key in ReferencedBy(configured, photos[u]);
    }
    forall key | key in Referenced(configured, photos)
      ensures exists u :: u in photos && key in Keys(base, photos[u])
    {
      var u :| u in photos && key in ReferencedBy(configured, photos[u]);
      var url :| url in photos[u] && KeyFromUrl(url, configured) == Some(key);
      assert GetKeyFromUrl(base, url) == Some(key);
      assert key in Keys(base, photos[u]);
    }
  }

  /** After a sweep the stored user objects are the referenced ones that were there, and a second sweep finds nothing. */
  lemma SweepKeepsReferenced(configured: string, photos: map<UserId, seq<Url>>, objects: set<string>)
    ensures var after := objects - Orphans(configured, photos, objects);
            && (forall key :: key in after && StartsWith(key, USERS_PREFIX) <==>
                              key in Referenced(configured, photos) && key in objects && StartsWith(key, USERS_PREFIX))
            && (Linked(StripSlash(configured), photos, after) <==> Linked(StripSlash(configured), photos, objects))
            && Orphans(configured, photos, after) == {}
  {
    ReferencedAreKeys(configured, photos);
    var base, after := StripSlash(configured), objects - Orphans(configured, photos, objects);
    if Linked(base, photos, objects) {
      forall u | u in photos ensures Keys(base, photos[u]) <= after {
        forall key | key in Keys(base, photos[u]) ensures key in after {
          if StartsWith(key, USERS_PREFIX) {
            assert key != "";
          }
        }
      }
    }
  }

  /** When every list is linked, the stored user objects are then exactly the referenced ones. */
  lemma SweepRestoresEquality(configured: string, photos: map<UserId, seq<Url>>, objects: set<string>)
    requires Linked(StripSlash(configured), photos, objects)
    ensures var after := objects - Orphans(configured, photos, objects);
            && Linked(StripSlash(configured), photos, after)
            && (forall key :: key in after && StartsWith(key, USERS_PREFIX) <==>
                              key in Referenced(configured, photos) && StartsWith(key, USERS_PREFIX))
            && Orphans(configured, photos, after) == {}
  {
    SweepKeepsReferenced(configured, photos, objects);
    ReferencedAreKeys(configured, photos);
  }

  /**
   * The sweep after any run of photo requests, once none is under way: what is left are the referenced objects, but for
   * those that rollbacks of listed photos have deleted.
   */
  lemma SweepAfterRun(configured: string, run: seq<State>, actions: seq<Action>, n: nat)
    requires IsRun(StripSlash(configured), run, actions) && Initial(StripSlash(configured), run[0]) && n < |run|
    requires run[n].requests == map[]
    ensures var s := run[n];
            var swept := s.(objects := s.objects - Orphans(configured, s.photos, s.objects));
            && (Lost(run, actions, n) == {} ==> Initial(StripSlash(configured), swept))
            && (forall key :: key in swept.objects && StartsWith(key, USERS_PREFIX) <==>
                              key in Referenced(configured, s.photos) && key !in Lost(run, actions, n)
                              && StartsWith(key, USERS_PREFIX))
  {
    hide Next, Lost, Orphans;
    var base, s := StripSlash(configured), run[n];
    InvHolds(base, run, actions, n);
    SweepKeepsReferenced(configured, s.photos, s.objects);
    ReferencedAreKeys(configured, s.photos);
    if Lost(run, actions, n) == {} {
      assert Restored(s, {}) == s;
    }
  }

  // The objects that uploads under way have stored and not yet listed.
  ghost predicate Unpublished(base: string, s: State, key: string) {
    exists u :: u in s.requests && (s.requests[u].Uploading? || s.requests[u].Pushing?) && key in Keys(base, s.requests[u].urls)
  }

  /**
   * A sweep taken as one step beside photo requests keeps the invariant exactly when no upload under way has a user
   * object stored. For a sweep that takes its time see `SweepProtocol`.
   */
  lemma SweepMustRunAlone(configured: string, s: State)
    requires Inv(StripSlash(configured), s)
    ensures Inv(StripSlash(configured), s.(objects := s.objects - Orphans(configured, s.photos, s.objects))) <==>
            forall key :: Unpublished(StripSlash(configured), s, key) ==> !StartsWith(key, USERS_PREFIX)
  {
    var base := StripSlash(configured);
    var swept := s.(objects := s.objects - Orphans(configured, s.photos, s.objects));
    ReferencedAreKeys(configured, s.photos);
    SweepRestoresEquality(configured, s.photos, s.objects);
    if key :| Unpublished(base, s, key) && StartsWith(key, USERS_PREFIX) {
      var u :| u in s.requests && (s.requests[u].Uploading? || s.requests[u].Pushing?) && key in Keys(base, s.requests[u].urls);
      assert RequestInv(base, s, u);
      UnreferencedIsSwept(configured, s, key);
      assert !RequestInv(base, swept, u);
    } else {
      forall u | u in swept.requests ensures RequestInv(base, swept, u) {
        assert RequestInv(base, s, u);
        if s.requests[u].Uploading? || s.requests[u].Pushing? {
          forall key | key in Keys(base, s.requests[u].urls) ensures key in swept.objects {
            assert Unpublished(base, s, key);
          }
        }
      }
    }
  }

  lemma UnreferencedIsSwept(configured: string, s: State, key: string)
    requires key in s.objects && StartsWith(key, USERS_PREFIX)
    requires forall u :: u in s.photos ==> key !in Keys(StripSlash(configured), s.photos[u])
    ensures key in Orphans(configured, s.photos, s.objects)
  {
    ReferencedAreKeys(configured, s.photos);
  }

  /******* The pieces of the command *******/

  function FindOrphanKeys(storageKeys: seq<string>, referencedKeys: set<string>): (orphans: seq<string>)
    ensures forall key :: key in orphans <==> key in storageKeys && key !in referencedKeys
    ensures NoRepeats(storageKeys) ==> NoRepeats(orphans)
  {
    if storageKeys == [] then []
    else
      var rest := FindOrphanKeys(storageKeys[1..], referencedKeys);
      assert storageKeys == [storageKeys[0]] + storageKeys[1..];
      if storageKeys[0] in referencedKeys then rest else [storageKeys[0]] + rest
  }

  function Concat<T>(chunks: seq<seq<T>>): seq<T> {
    if chunks == [] then [] else Concat(chunks[..|chunks| - 1]) + chunks[|chunks| - 1]
  }

  /** The chunks, joined, are the items; each holds 1 to `size` of them and all but the last are full. */
  method Chunk<T>(items: seq<T>, size: nat) returns (chunks: seq<seq<T>>)
    requires size > 0
    ensures Concat(chunks) == items
    ensures forall n :: 0 <= n < |chunks| ==> 1 <= |chunks[n]| <= size
    ensures forall n :: 0 <= n < |chunks| - 1 ==> |chunks[n]| == size
  {
    chunks := [];
    var i := 0;
    while i < |items|
      invariant 0 <= i && Concat(chunks) == items[..if i < |items| then i else |items|]
      invariant forall n :: 0 <= n < |chunks| ==> 1 <= |chunks[n]| <= size
      invariant i <= |items| ==> forall n :: 0 <= n < |chunks| ==> |chunks[n]| == size
      invariant forall n :: 0 <= n < |chunks| - 1 ==> |chunks[n]| == size
    {
      var end := if i + size < |items| then i + size else |items|;
      ghost var before := chunks;
      chunks := chunks + [items[i..end]];
      assert chunks[..|chunks| - 1] == before;
      assert items[..end] == items[..i] + items[i..end];
      i := i + size;
    }
  }

  class OrphanPhotosSweep {
    const publicUrl: string
    const photos: map<UserId, seq<Url>>
    var objects: set<string>

    constructor (publicUrl: string, photos: map<UserId, seq<Url>>, objects: set<string>)
      ensures this.publicUrl == publicUrl && this.photos == photos && this.objects == objects
    {
      this.publicUrl, this.photos, this.objects := publicUrl, photos, objects;
    }

    // The server lists the keys of the prefix in an order of its own, in pages of sizes of its own.
    ghost predicate IsListing(prefix: string, order: seq<string>)
      reads this
    {
      NoRepeats(order) && forall key :: key in order <==> key in objects && StartsWith(key, prefix)
    }

    function ListObjects(order: seq<string>, token: Option<nat>, pageSize: nat): Page
      requires pageSize > 0
    {
      var from := if token.None? then 0 else if token.value < |order| then token.value else |order|;
      var to := if from + pageSize < |order| then from + pageSize else |order|;
      Page(order[from..to], if to < |order| then Some(to) else None)
    }

    // The keys of a page behind those of the pages before.
    method PushKeys(keys: seq<string>, contents: seq<string>) returns (more: seq<string>)
      requires "" !in contents
      ensures more == keys + contents
    {
      more := keys;
      for i := 0 to |contents|
        invariant more == keys + contents[..i]
      {
        assert contents[i] in contents;
        if contents[i] != "" {
          more := more + [contents[i]];
        }
      }
    }

    lemma PageContinues(order: seq<string>, token: Option<nat>, pageSize: nat)
      requires pageSize > 0 && (token.Some? ==> token.value < |order|)
      ensures var page, from := ListObjects(order, token, pageSize), if token.None? then 0 else token.value;
              && order[..from] + page.contents == (if page.nextToken.None? then order else order[..page.nextToken.value])
              && (page.nextToken.Some? ==> from < page.nextToken.value < |order|)
    {
    }

    lemma PageHasNoEmptyKey(prefix: string, order: seq<string>, token: Option<nat>, pageSize: nat)
      requires IsListing(prefix, order) && prefix != "" && pageSize > 0
      ensures "" !in ListObjects(order, token, pageSize).contents
    {
      forall key | key in ListObjects(order, token, pageSize).contents ensures key != "" {
        assert key in order && StartsWith(key, prefix);
      }
    }

    /** The paged listing returns every key of the prefix once. */
    method ListKeys(prefix: string, order: seq<string>, pageSizes: nat -> nat) returns (keys: seq<string>)
      requires IsListing(prefix, order) && prefix != ""
      requires forall n :: pageSizes(n) > 0
      ensures keys == order
    {
      hide ListObjects, IsListing;
      keys := [];
      var continuationToken: Option<nat> := None;
      while true
        invariant continuationToken.None? ==> keys == []
        invariant continuationToken.Some? ==> continuationToken.value < |order| && keys == order[..continuationToken.value]
        decreases |order| - |keys|
      {
        PageContinues(order, continuationToken, pageSizes(|keys|));
        PageHasNoEmptyKey(prefix, order, continuationToken, pageSizes(|keys|));
        var page := ListObjects(order, continuationToken, pageSizes(|keys|));
        keys := PushKeys(keys, page.contents);
        continuationToken := page.nextToken;
        if continuationToken.None? {
          break;
        }
      }
    }

    method ListReferencedKeys() returns (referenced: set<string>)
      ensures referenced == Referenced(publicUrl, photos)
    {
      referenced := {};
      var rest := photos.Keys;
      while rest != {}
        invariant rest <= photos.Keys
        invariant referenced == Referenced(publicUrl, photos - rest)
      {
        var user :| user in rest;
        ghost var before := referenced;
        for i := 0 to |photos[user]|
          invariant referenced == before + ReferencedBy(publicUrl, photos[user][..i])
        {
          var key := KeyFromUrl(photos[user][i], publicUrl);
          ReferencedByOneMore(publicUrl, photos[user], i);
          if key.Some? && key.value != "" {
            referenced := referenced + {key.value};
          }
        }
        assert photos[user][..|photos[user]|] == photos[user];
        ReferencedOneMoreUser(publicUrl, photos, rest, user);
        rest := rest - {user};
      }
      assert photos - {} == photos;
    }

    method Audit(order: seq<string>, pageSizes: nat -> nat) returns (result: AuditResult)
      requires IsListing(USERS_PREFIX, order)
      requires forall n :: pageSizes(n) > 0
      ensures Elements(result.orphanKeys) == Orphans(publicUrl, photos, objects) && NoRepeats(result.orphanKeys)
      ensures result.totalObjects == |set key | key in objects && StartsWith(key, USERS_PREFIX)|
      ensures result.referencedObjects == |Referenced(publicUrl, photos)|
    {
      var storageKeys := ListKeys(USERS_PREFIX, order, pageSizes);
      var referencedKeys := ListReferencedKeys();
      result := AuditResult(|storageKeys|, |referencedKeys|, FindOrphanKeys(storageKeys, referencedKeys));
      NoRepeatsSize(storageKeys);
      assert Elements(storageKeys) == set key | key in objects && StartsWith(key, USERS_PREFIX);
    }

    // `DeleteObjects` takes a thousand keys at most.
    method DeleteObjects(batch: seq<string>, call: Call)
      requires 1 <= |batch| <= 1000
      modifies this
      ensures objects == if call == Done || call.applied then old(objects) - Elements(batch) else old(objects)
    {
      if call == Done || call.applied {
        objects := objects - Elements(batch);
      }
    }

    /**
     * Deletes exactly the orphans when every deletion succeeds, and never anything else; `calls` says how each
     * deletion ends, and a failed one ends the run.
     */
    method Apply(order: seq<string>, pageSizes: nat -> nat, calls: nat -> Call) returns (result: Option<AuditResult>)
      requires IsListing(USERS_PREFIX, order)
      requires forall n :: pageSizes(n) > 0
      modifies this
      ensures old(objects) - Orphans(publicUrl, photos, old(objects)) <= objects <= old(objects)
      ensures result.Some? ==> objects == old(objects) - Orphans(publicUrl, photos, old(objects))
      ensures result.Some? ==> forall key :: key in objects <==>
                key in old(objects)
                && ("users/" <= key ==>
                      exists u, url :: u in photos && url in photos[u] && url == StripSlash(publicUrl) + "/" + key)
      ensures result.Some? ==> Elements(result.value.orphanKeys) == Orphans(publicUrl, photos, old(objects))
      ensures result.None? ==> exists n: nat :: calls(n) != Done
    {
      OrphansMean(publicUrl, photos, objects);
      var audit := Audit(order, pageSizes);
      var batches := Chunk(audit.orphanKeys, DELETE_BATCH_SIZE);
      for n := 0 to |batches|
        invariant objects == old(objects) - Elements(Concat(batches[..n]))
      {
        assert batches[..n + 1][..n] == batches[..n];
        assert Concat(batches[..n + 1]) == Concat(batches[..n]) + batches[n];
        ConcatPrefix(batches, n + 1);
        DeleteObjects(batches[n], calls(n));
        if calls(n) != Done {
          return None;
        }
      }
      assert batches[..|batches|] == batches;
      return Some(audit);
    }
  }

  lemma OrphansMean(configured: string, photos: map<UserId, seq<Url>>, objects: set<string>)
    ensures forall key :: key in objects ==>
              (key !in Orphans(configured, photos, objects) <==>
               ("users/" <= key ==> exists u, url :: u in photos && url in photos[u] && url == StripSlash(configured) + "/" + key))
  {
    var base := StripSlash(configured);
    ReferencedAreKeys(configured, photos);
    forall key | key in objects && "users/" <= key
      ensures key in Referenced(configured, photos) <==>
              exists u, url :: u in photos && url in photos[u] && url == base + "/" + key
    {
      if u, url :| u in photos && url in photos[u] && url == base + "/" + key {
        KeyIffPublicUrl(base, url, key);
        assert key in Keys(base, photos[u]);
      }
      if key in Referenced(configured, photos) {
        var u :| u in photos && key in Keys(base, photos[u]);
        var url :| url in photos[u] && GetKeyFromUrl(base, url) == Some(key);
        KeyIffPublicUrl(base, url, key);
      }
    }
  }

  lemma ReferencedByOneMore(configured: string, urls: seq<Url>, i: nat)
    requires i < |urls|
    ensures var key := KeyFromUrl(urls[i], configured);
            ReferencedBy(configured, urls[..i + 1]) ==
            ReferencedBy(configured, urls[..i]) + (if key.Some? && key.value != "" then {key.value} else {})
  {
    assert urls[..i + 1] == urls[..i] + [urls[i]];
  }

  lemma ReferencedOneMoreUser(configured: string, photos: map<UserId, seq<Url>>, rest: set<UserId>, user: UserId)
    requires user in rest && user in photos
    ensures Referenced(configured, photos - (rest - {user})) ==
            Referenced(configured, photos - rest) + ReferencedBy(configured, photos[user])
  {
    hide ReferencedBy;
    var seen, more := photos - rest, photos - (rest - {user});
    forall key | key in Referenced(configured, seen) ensures key in Referenced(configured, more) {
      var u :| u in seen && key in ReferencedBy(configured, seen[u]);
      assert u in more && more[u] == seen[u];
    }
    forall key | key in ReferencedBy(configured, photos[user]) ensures key in Referenced(configured, more) {
      assert user in more && more[user] == photos[user];
    }
    forall key | key in Referenced(configured, more)
      ensures key in Referenced(configured, seen) + ReferencedBy(configured, photos[user])
    {
      var u :| u in more && key in ReferencedBy(configured, more[u]);
      assert u == user || (u in seen && more[u] == seen[u]);
    }
  }

  lemma ConcatPrefix<T>(chunks: seq<seq<T>>, n: nat)
    requires n <= |chunks|
    ensures Elements(Concat(chunks[..n])) <= Elements(Concat(chunks))
  {
    if n < |chunks| {
      ConcatPrefix(chunks[..|chunks| - 1], n);
      assert chunks[..|chunks| - 1][..n] == chunks[..n];
    } else {
      assert chunks[..n] == chunks;
    }
  }
}
