// Object keys and the public URLs that stand for them in a user's photo list.
module PublicUrls {
  import opened Documents

  predicate StartsWith(s: string, prefix: string) {
    prefix <= s
  }

  // `replace(/\/$/, '')`: one trailing slash is dropped.
  function StripSlash(url: string): string {
    if url != "" && url[|url| - 1] == '/' then url[..|url| - 1] else url
  }

  // `StorageService.getPublicUrl`, for the base without its trailing slash.
  function GetPublicUrl(publicUrl: string, key: string): string {
    publicUrl + "/" + key
  }

  // `StorageService.getKeyFromUrl`.
  function GetKeyFromUrl(publicUrl: string, url: string): Option<string> {
    var prefix := publicUrl + "/";
    if !StartsWith(url, prefix) then None else Some(url[|prefix|..])
  }

  // The sweep's own `keyFromUrl`, for the base as configured.
  function KeyFromUrl(url: string, publicUrl: string): Option<string> {
    var prefix := StripSlash(publicUrl) + "/";
    if StartsWith(url, prefix) then Some(url[|prefix|..]) else None
  }

  /** A URL has key `key` exactly when it is that key's public URL, so neither function loses anything. */
  lemma KeyIffPublicUrl(publicUrl: string, url: string, key: string)
    ensures GetKeyFromUrl(publicUrl, url) == Some(key) <==> url == GetPublicUrl(publicUrl, key)
  {
    var prefix := publicUrl + "/";
    if StartsWith(url, prefix) {
      assert url == prefix + url[|prefix|..];
    }
    assert (prefix + key)[|prefix|..] == key;
  }

  /** The sweep reads keys as the service does, whether or not the configured base ends in a slash. */
  lemma SweepReadsLikeService(configured: string, url: string, key: string)
    ensures KeyFromUrl(url, configured) == GetKeyFromUrl(StripSlash(configured), url)
    ensures KeyFromUrl(GetPublicUrl(StripSlash(configured), key), configured) == Some(key)
    ensures configured == "" || configured[|configured| - 1] != '/' ==>
              forall u :: KeyFromUrl(u, configured + "/") == KeyFromUrl(u, configured)
  {
    KeyIffPublicUrl(StripSlash(configured), GetPublicUrl(StripSlash(configured), key), key);
    assert (configured + "/")[..|configured + "/"| - 1] == configured;
  }

  /******* Keys of users *******/

  // `users/${userId}/`: the prefix of a user's objects.
  function UserPrefix(userId: string): string {
    "users/" + userId + "/"
  }

  function PhotoKey(userId: string, uuid: string): string {
    UserPrefix(userId) + uuid + ".jpg"
  }

  lemma UserPrefixChars(u: string, key: string)
    requires StartsWith(key, UserPrefix(u))
    ensures |key| > 6 + |u| && key[6 + |u|] == '/'
    ensures forall i :: 0 <= i < |u| ==> key[6 + i] == u[i]
  {
    var p := UserPrefix(u);
    assert key[6 + |u|] == p[6 + |u|];
    forall i | 0 <= i < |u| ensures key[6 + i] == u[i] {
      assert key[6 + i] == p[6 + i];
    }
  }

  /** Prefixes of two users never overlap, because an id holds no slash. */
  lemma {:induction false} PrefixesDisjoint(u: string, v: string, key: string)
    requires '/' !in u && '/' !in v
    requires StartsWith(key, UserPrefix(u)) && StartsWith(key, UserPrefix(v))
    ensures u == v
  {
    UserPrefixChars(u, key);
    UserPrefixChars(v, key);
    assert |u| == |v|;
    assert u == v;
  }
}
