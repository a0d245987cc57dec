/** The user store of `lib/userinfo.ts`: the user record, the single-slot
    user-list cache, the per-email Gravatar profile cache, and the lookup by
    id. Each cache is an explicit value passed in and handed back; the clock,
    the outcome of every I/O step and the `typeof window` test are
    parameters. */
module Userinfo {
  import opened Wrappers
  import opened JsString
  import Gravatar

  /** `UserInfo`: one record of `users.json`. */
  datatype UserInfo = UserInfo(
    uid: Str,
    displayName: Str,
    email: Str,
    jobTitle: Str,
    aboutMe: Option<Str>,
    thumbnailUrl: Option<Str>)

  /** Position of the first record with id `uid`. */
  function FirstIndexOf(users: seq<UserInfo>, uid: Str): (r: Option<nat>)
    ensures r.Some? ==> r.value < |users| && users[r.value].uid == uid
    ensures r.Some? ==> forall j :: 0 <= j < r.value ==> users[j].uid != uid
    ensures r.None? <==> forall j :: 0 <= j < |users| ==> users[j].uid != uid
  {
    if users == [] then None
    else if users[0].uid == uid then Some(0)
    else match FirstIndexOf(users[1..], uid)
      case None => None
      case Some(k) => Some(k + 1)
  }

  /** `users.find(user => user.uid === uid)`: the first record with that id. */
  function FindByUid(users: seq<UserInfo>, uid: Str): (r: Option<UserInfo>)
    ensures r.Some? ==> r.value.uid == uid && r.value in users
    ensures r.Some? ==> exists k :: 0 <= k < |users| && users[k] == r.value &&
                          forall j :: 0 <= j < k ==> users[j].uid != uid
    ensures r.None? <==> forall j :: 0 <= j < |users| ==> users[j].uid != uid
  {
    match FirstIndexOf(users, uid)
    case None => None
    case Some(k) => Some(users[k])
  }

  // ---------------------------------------------------------------------------
  // The user-list cache (`usersCache`, `usersCacheTime`)
  // ---------------------------------------------------------------------------

  /** `CACHE_TTL`: five minutes, in milliseconds. */
  const UsersTtl: int := 5 * 60 * 1000

  /** `usersCache` (null until the first successful load) and `usersCacheTime`. */
  datatype UsersCache = UsersCache(users: Option<seq<UserInfo>>, time: int)

  const InitialUsersCache: UsersCache := UsersCache(None, 0)

  /** The I/O steps `getAllUserFromLocal` may take. */
  datatype LoadStep = ReadFile | ServerFetch | ClientFetch

  /** What each step would yield if taken: the parsed `users.json`, or a
      thrown error. */
  datatype UserSources = UserSources(
    file: Outcome<seq<UserInfo>>,
    serverFetch: Outcome<seq<UserInfo>>,
    clientFetch: Outcome<seq<UserInfo>>)

  /** The list returned, the cache afterwards, and the I/O steps taken. */
  datatype UsersReply = UsersReply(users: seq<UserInfo>, cache: UsersCache, steps: seq<LoadStep>)

  /** A cached list exists (an empty list counts) and is younger than the TTL. */
  predicate IsFresh(cache: UsersCache, now: int) {
    cache.users.Some? && now - cache.time < UsersTtl
  }

  /** The load the code attempts when the cache is not fresh: on the server
      the file, then the HTTP fallback; in the browser one fetch. */
  function Load(onServer: bool, src: UserSources): (r: (Outcome<seq<UserInfo>>, seq<LoadStep>))
    ensures r.1 != []
    ensures onServer ==> r.1[0] == ReadFile
    ensures !onServer ==> r.1 == [ClientFetch]
    ensures r.0.Ok? <==> (if onServer then src.file.Ok? || src.serverFetch.Ok? else src.clientFetch.Ok?)
    // A successful file read is the answer; the HTTP fallback runs only after a failed read.
    ensures onServer && src.file.Ok? ==> r == (src.file, [ReadFile])
    ensures onServer && src.file.Err? ==> r == (src.serverFetch, [ReadFile, ServerFetch])
    ensures !onServer ==> r.0 == src.clientFetch
  {
    if onServer then
      match src.file
      case Ok(users) => (Ok(users), [ReadFile])
      case Err => (src.serverFetch, [ReadFile, ServerFetch])
    else (src.clientFetch, [ClientFetch])
  }

  /** `getAllUserFromLocal()` at time `now`. */
  function GetAllUsers(cache: UsersCache, now: int, onServer: bool, src: UserSources): (r: UsersReply)
    // What is returned is always what the cache holds afterwards, or [] when it holds nothing.
    ensures r.users == r.cache.users.GetOr([])
    // A fresh cache is served as is, with no I/O.
    ensures IsFresh(cache, now) ==> r.users == cache.users.value && r.cache == cache && r.steps == []
    // Otherwise a load is attempted; on success the slot is replaced by (users, now).
    ensures !IsFresh(cache, now) ==> r.steps != [] && r.steps == Load(onServer, src).1
    ensures !IsFresh(cache, now) && Load(onServer, src).0.Ok? ==>
              r.cache == UsersCache(Some(Load(onServer, src).0.data), now)
    // When every step fails, the old list (however stale) or [] comes back and the cache is untouched.
    ensures !IsFresh(cache, now) && Load(onServer, src).0.Err? ==>
              r.cache == cache && r.users == cache.users.GetOr([])
    // The slot is only ever replaced wholesale, stamped `now`, and never emptied.
    ensures r.cache == cache || r.cache == UsersCache(Some(r.users), now)
    ensures cache.users.Some? ==> r.cache.users.Some?
  {
    if IsFresh(cache, now) then UsersReply(cache.users.value, cache, [])
    else
      var (outcome, steps) := Load(onServer, src);
      match outcome
      case Ok(users) => UsersReply(users, UsersCache(Some(users), now), steps)
      case Err => UsersReply(cache.users.GetOr([]), cache, steps)
  }

  /** After a successful load at `t1`, a call at any `t2` less than five
      minutes later does no I/O and returns the same list, whatever the
      sources would now yield. */
  lemma ServedFromCacheWithinTtl(cache: UsersCache, t1: int, t2: int, onServer: bool, src1: UserSources,
                                 onServer2: bool, src2: UserSources)
    requires !IsFresh(cache, t1) && Load(onServer, src1).0.Ok?
    requires t2 - t1 < UsersTtl
    ensures var r1 := GetAllUsers(cache, t1, onServer, src1);
            var r2 := GetAllUsers(r1.cache, t2, onServer2, src2);
            r2.steps == [] && r2.users == r1.users && r2.cache == r1.cache
  {
  }

  /** Two calls less than five minutes apart, with the source available,
      perform at most one load between them. */
  lemma AtMostOneLoadWithinTtl(cache: UsersCache, t1: int, t2: int, onServer: bool, src: UserSources)
    requires Load(onServer, src).0.Ok?
    requires t1 <= t2 < t1 + UsersTtl
    ensures var r1 := GetAllUsers(cache, t1, onServer, src);
            var r2 := GetAllUsers(r1.cache, t2, onServer, src);
            r1.steps == [] || r2.steps == []
  {
    if !IsFresh(cache, t1) {
      ServedFromCacheWithinTtl(cache, t1, t2, onServer, src, onServer, src);
    }
  }

  /** Once a non-empty list has been cached, a call answers [] only when a
      load has just succeeded with an empty file: failures fall back to it. */
  lemma NeverForgets(cache: UsersCache, now: int, onServer: bool, src: UserSources)
    requires cache.users.Some? && cache.users.value != []
    ensures GetAllUsers(cache, now, onServer, src).users == [] ==>
              !IsFresh(cache, now) && Load(onServer, src).0 == Ok([])
  {
  }

  /** `getOneUserInfo(userId)`: nothing for an empty id (and no load);
      otherwise the first record with that id from `getAllUserFromLocal`. */
  function GetOneUserInfo(userId: Str, cache: UsersCache, now: int, onServer: bool, src: UserSources)
    : (r: (Option<UserInfo>, UsersCache))
    ensures userId == [] ==> r == (None, cache)
    ensures userId != [] ==> r.1 == GetAllUsers(cache, now, onServer, src).cache
    ensures userId != [] ==> var users := GetAllUsers(cache, now, onServer, src).users;
              && (r.0.None? <==> forall j :: 0 <= j < |users| ==> users[j].uid != userId)
              && (r.0.Some? ==> r.0.value.uid == userId && r.0.value in users)
              && (r.0.Some? ==> exists k :: 0 <= k < |users| && users[k] == r.0.value &&
                                  forall j :: 0 <= j < k ==> users[j].uid != userId)
    // The record is the one `find` picks from the (cached) list.
    ensures userId != [] ==> r.0 == FindByUid(GetAllUsers(cache, now, onServer, src).users, userId)
  {
    if userId == [] then (None, cache)
    else
      var reply := GetAllUsers(cache, now, onServer, src);
      (FindByUid(reply.users, userId), reply.cache)
  }

  // ---------------------------------------------------------------------------
  // The Gravatar profile cache (`gravatarCache`)
  // ---------------------------------------------------------------------------

  /** `GRAVATAR_CACHE_TTL`: one hour, in milliseconds. */
  const GravatarTtl: int := 60 * 60 * 1000

  /** The two profile fields the directory uses. */
  datatype Profile = Profile(aboutMe: Str, thumbnailUrl: Str)

  const EmptyProfile: Profile := Profile([], [])

  /** A cache entry: the profile and when it was fetched. */
  datatype CachedProfile = CachedProfile(profile: Profile, timestamp: int)

  /** `gravatarCache`: digest of the normalised email to entry. */
  type ProfileCache = map<Str, CachedProfile>

  /** The parts of a Gravatar profile document the code reads:
      `data.entry?.[0]?.aboutMe` and `...thumbnailUrl`. */
  datatype GravatarEntry = GravatarEntry(aboutMe: Option<Str>, thumbnailUrl: Option<Str>)
  datatype GravatarDocument = GravatarDocument(entry: Option<seq<GravatarEntry>>)

  /** The profile a document yields: the first entry's fields, `""` where absent. */
  function ProfileOf(doc: GravatarDocument): (p: Profile)
    ensures doc.entry.None? || doc.entry.value == [] ==> p == EmptyProfile
    ensures doc.entry.Some? && doc.entry.value != [] ==>
              p.aboutMe == doc.entry.value[0].aboutMe.GetOr([]) &&
              p.thumbnailUrl == doc.entry.value[0].thumbnailUrl.GetOr([])
  {
    match doc.entry
    case None => EmptyProfile
    case Some(entries) =>
      if entries == [] then EmptyProfile
      else Profile(entries[0].aboutMe.GetOr([]), entries[0].thumbnailUrl.GetOr([]))
  }

  /** The cache key: `md5(email.trim().toLowerCase())`. */
  function ProfileKey(md5: Str -> Str, email: Str): Str {
    md5(ToLower(Trim(email)))
  }

  /** The profile cache and the avatar URL digest the same normalised email. */
  lemma ProfileKeyIsAvatarDigest(md5: Str -> Str, email: Str)
    ensures ProfileKey(md5, email) == md5(Gravatar.AvatarKey(email))
  {
    TrimLowerCommute(email);
  }

  /** `https://www.gravatar.com/${emailHash}.json`. */
  function ProfileUrl(key: Str): Str {
    Lit("https://www.gravatar.com/") + key + Lit(".json")
  }

  /** The profile returned, the cache afterwards, and the URL requested, if any. */
  datatype ProfileReply = ProfileReply(profile: Profile, cache: ProfileCache, request: Option<Str>)

  predicate IsFreshEntry(cache: ProfileCache, key: Str, now: int) {
    key in cache && now - cache[key].timestamp < GravatarTtl
  }

  /** `getGravatarInfo(email)` at time `now`; `fetch` is what the request
      would yield (a timeout or non-2xx status is `Err`). */
  function GetGravatarInfo(cache: ProfileCache, email: Str, now: int, onServer: bool,
                           md5: Str -> Str, fetch: Outcome<GravatarDocument>): (r: ProfileReply)
    // In the browser, or for an empty email: empty fields, no request, cache untouched.
    ensures !onServer || email == [] ==> r == ProfileReply(EmptyProfile, cache, None)
    // Otherwise the answer is always what the cache now holds for the key, or empty fields.
    ensures onServer && email != [] ==> var key := ProfileKey(md5, email);
              r.profile == (if key in r.cache then r.cache[key].profile else EmptyProfile)
    // Only the entry for this email's key can change.
    ensures forall k :: k in cache ==> k in r.cache
    ensures forall k :: k != ProfileKey(md5, email) ==>
              (k in r.cache <==> k in cache) && (k in cache ==> r.cache[k] == cache[k])
    // A fresh entry is served without a request.
    ensures onServer && email != [] && IsFreshEntry(cache, ProfileKey(md5, email), now) ==>
              r.request == None && r.cache == cache
    // Otherwise exactly one request, to the profile URL of the key.
    ensures onServer && email != [] && !IsFreshEntry(cache, ProfileKey(md5, email), now) ==>
              r.request == Some(ProfileUrl(ProfileKey(md5, email)))
    // A successful fetch is written through, stamped `now`.
    ensures onServer && email != [] && !IsFreshEntry(cache, ProfileKey(md5, email), now) && fetch.Ok? ==>
              r.cache == cache[ProfileKey(md5, email) := CachedProfile(ProfileOf(fetch.data), now)]
    // A failed fetch leaves the cache alone; a stale entry still answers.
    ensures onServer && email != [] && fetch.Err? ==> r.cache == cache
  {
    if !onServer then ProfileReply(EmptyProfile, cache, None)
    else if email == [] then ProfileReply(EmptyProfile, cache, None)
    else
      var key := ProfileKey(md5, email);
      if IsFreshEntry(cache, key, now) then ProfileReply(cache[key].profile, cache, None)
      else
        var request := Some(ProfileUrl(key));
        match fetch
        case Ok(doc) =>
          var profile := ProfileOf(doc);
          ProfileReply(profile, cache[key := CachedProfile(profile, now)], request)
        case Err =>
          ProfileReply(if key in cache then cache[key].profile else EmptyProfile, cache, request)
  }

  /** After a successful fetch at `t1`, any call within the hour for the same
      address, in any letter case or with any surrounding whitespace, is
      answered from the cache without a request. */
  lemma ProfileServedFromCacheWithinTtl(cache: ProfileCache, email: Str, email2: Str, t1: int, t2: int,
                                        md5: Str -> Str, fetch1: Outcome<GravatarDocument>,
                                        fetch2: Outcome<GravatarDocument>)
    requires email != [] && email2 != []
    requires ToLower(Trim(email2)) == ToLower(Trim(email))
    requires !IsFreshEntry(cache, ProfileKey(md5, email), t1) && fetch1.Ok?
    requires t2 - t1 < GravatarTtl
    ensures var r1 := GetGravatarInfo(cache, email, t1, true, md5, fetch1);
            var r2 := GetGravatarInfo(r1.cache, email2, t2, true, md5, fetch2);
            r2.request == None && r2.profile == r1.profile && r2.cache == r1.cache
  {
  }

  /** A failed request never loses a profile fetched before, however old. */
  lemma StaleProfileSurvivesFailure(cache: ProfileCache, email: Str, now: int, md5: Str -> Str)
    requires email != [] && ProfileKey(md5, email) in cache
    ensures GetGravatarInfo(cache, email, now, true, md5, Err).profile == cache[ProfileKey(md5, email)].profile
  {
  }
}
