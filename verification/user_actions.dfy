/** The server action of `app/actions/user.ts`: look a user up and enrich
    the record with Gravatar profile fields. */
module UserActions {
  import opened Wrappers
  import opened JsString
  import opened Userinfo

  /** `a || b || ""` over an enrichment value and an optional record value. */
  function Prefer(enriched: Str, own: Option<Str>): (r: Str)
    ensures enriched != [] ==> r == enriched
    ensures enriched == [] && own.Some? && own.value != [] ==> r == own.value
    ensures enriched == [] && (own.None? || own.value == []) ==> r == []
  {
    if enriched != [] then enriched
    else match own
      case Some(s) => if s != [] then s else []
      case None => []
  }

  /** The `{ ...user, aboutMe, thumbnailUrl }` merge of `getFullUserInfo`
      (app/actions/user.ts), or the untouched record when its inner `catch`
      ran because `getGravatarInfo` threw. */
  function Enrich(user: UserInfo, enrichment: Outcome<Profile>): (r: UserInfo)
    ensures enrichment.Err? ==> r == user
    ensures r.uid == user.uid && r.displayName == user.displayName
    ensures r.email == user.email && r.jobTitle == user.jobTitle
    ensures enrichment.Ok? ==> r.aboutMe == Some(Prefer(enrichment.data.aboutMe, user.aboutMe))
    ensures enrichment.Ok? ==> r.thumbnailUrl == Some(Prefer(enrichment.data.thumbnailUrl, user.thumbnailUrl))
  {
    match enrichment
    case Err => user
    case Ok(p) =>
      user.(aboutMe := Some(Prefer(p.aboutMe, user.aboutMe)),
            thumbnailUrl := Some(Prefer(p.thumbnailUrl, user.thumbnailUrl)))
  }

  /** A field that was set stays set, and enriching twice with the same
      profile changes nothing more. */
  lemma EnrichKeepsNonEmptyAndIsIdempotent(user: UserInfo, p: Profile)
    ensures var r := Enrich(user, Ok(p));
      && (user.aboutMe.Some? && user.aboutMe.value != [] ==> r.aboutMe.value != [])
      && (user.thumbnailUrl.Some? && user.thumbnailUrl.value != [] ==> r.thumbnailUrl.value != [])
      && Enrich(r, Ok(p)) == r
  {
  }

  /** A non-empty Gravatar "about me" replaces a non-empty one already in the
      record: enrichment overrides, it does not only fill gaps. */
  lemma EnrichmentOverridesExistingBio(user: UserInfo, p: Profile)
    requires user.aboutMe.Some? && user.aboutMe.value != []
    requires p.aboutMe != [] && p.aboutMe != user.aboutMe.value
    ensures Enrich(user, Ok(p)).aboutMe != user.aboutMe
  {
  }

  /** What the action returns and the two caches afterwards. */
  datatype FullReply = FullReply(
    user: Option<UserInfo>,
    usersCache: UsersCache,
    profileCache: ProfileCache,
    request: Option<Str>)

  /** `getFullUserInfo(userId)`. The two `Date.now()` readings are
      `usersNow` and `profileNow`. `getGravatarInfo` catches every failure
      itself, so the enrichment handed to `Enrich` is always `Ok` here. */
  function GetFullUserInfo(userId: Str, usersCache: UsersCache, profileCache: ProfileCache,
                           usersNow: int, profileNow: int, onServer: bool, src: UserSources,
                           md5: Str -> Str, fetch: Outcome<GravatarDocument>): (r: FullReply)
    // An empty id: nothing, and nothing loaded.
    ensures userId == [] ==> r == FullReply(None, usersCache, profileCache, None)
    // Otherwise the user list is read through its cache.
    ensures userId != [] ==> r.usersCache == GetAllUsers(usersCache, usersNow, onServer, src).cache
    // Absent exactly when no loaded record has the id.
    ensures userId != [] ==> var users := GetAllUsers(usersCache, usersNow, onServer, src).users;
              (r.user.None? <==> forall j :: 0 <= j < |users| ==> users[j].uid != userId)
    // The found record, with only the two profile fields possibly changed.
    ensures userId != [] && r.user.Some? ==>
              var found := FindByUid(GetAllUsers(usersCache, usersNow, onServer, src).users, userId).value;
              && r.user.value.uid == userId
              && r.user.value.displayName == found.displayName
              && r.user.value.email == found.email
              && r.user.value.jobTitle == found.jobTitle
              && (found.email == [] ==> r.user.value == found && r.request == None && r.profileCache == profileCache)
              && (found.email != [] ==>
                    var p := GetGravatarInfo(profileCache, found.email, profileNow, onServer, md5, fetch).profile;
                    r.user.value.aboutMe == Some(Prefer(p.aboutMe, found.aboutMe)) &&
                    r.user.value.thumbnailUrl == Some(Prefer(p.thumbnailUrl, found.thumbnailUrl)))
    // A record with an email advances the profile cache exactly as `getGravatarInfo` does.
    ensures userId != [] && r.user.Some? ==>
              var found := FindByUid(GetAllUsers(usersCache, usersNow, onServer, src).users, userId).value;
              found.email != [] ==>
                var g := GetGravatarInfo(profileCache, found.email, profileNow, onServer, md5, fetch);
                r.profileCache == g.cache && r.request == g.request
    // No record found: no profile request.
    ensures r.user.None? ==> r.request == None && r.profileCache == profileCache
  {
    if userId == [] then FullReply(None, usersCache, profileCache, None)
    else
      var loaded := GetAllUsers(usersCache, usersNow, onServer, src);
      match FindByUid(loaded.users, userId)
      case None => FullReply(None, loaded.cache, profileCache, None)
      case Some(user) =>
        if user.email == [] then FullReply(Some(user), loaded.cache, profileCache, None)
        else
          var g := GetGravatarInfo(profileCache, user.email, profileNow, onServer, md5, fetch);
          FullReply(Some(Enrich(user, Ok(g.profile))), loaded.cache, g.cache, g.request)
  }
}
