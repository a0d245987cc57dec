/** `lib/users.ts`: an uncached read of `users.json` and the lookup by id. */
module Users {
  import opened Wrappers
  import opened JsString
  import opened Userinfo

  /** `getUsers()`: on the server a synchronous file read, in the browser one
      fetch; any failure gives [] (there is no cache and no stale fallback). */
  function GetUsers(onServer: bool, file: Outcome<seq<UserInfo>>, fetch: Outcome<seq<UserInfo>>)
    : (r: seq<UserInfo>)
    ensures onServer && file.Ok? ==> r == file.data
    ensures !onServer && fetch.Ok? ==> r == fetch.data
    ensures (onServer && file.Err?) || (!onServer && fetch.Err?) ==> r == []
  {
    var outcome := if onServer then file else fetch;
    match outcome
    case Ok(users) => users
    case Err => []
  }

  /** The server path never falls back to a fetch, and the browser path
      never reads the file. */
  lemma OnePathOnly(file: Outcome<seq<UserInfo>>, file': Outcome<seq<UserInfo>>,
                    fetch: Outcome<seq<UserInfo>>, fetch': Outcome<seq<UserInfo>>)
    ensures GetUsers(true, file, fetch) == GetUsers(true, file, fetch')
    ensures GetUsers(false, file, fetch) == GetUsers(false, file', fetch)
  {
  }

  /** `getUserById(uid)`: the first record of `getUsers()` with that id. The
      empty id is not special-cased here. */
  function GetUserById(uid: Str, onServer: bool, file: Outcome<seq<UserInfo>>, fetch: Outcome<seq<UserInfo>>)
    : (r: Option<UserInfo>)
    ensures var users := GetUsers(onServer, file, fetch);
      && (r.Some? ==> r.value.uid == uid)
      && (r.Some? ==> exists k :: 0 <= k < |users| && users[k] == r.value &&
                        forall j :: 0 <= j < k ==> users[j].uid != uid)
      && (r.None? <==> forall j :: 0 <= j < |users| ==> users[j].uid != uid)
  {
    FindByUid(GetUsers(onServer, file, fetch), uid)
  }

  /** Unlike `getOneUserInfo`, a record whose id is empty is found by the
      empty id. */
  lemma EmptyIdIsLookedUp(u: UserInfo, file: Outcome<seq<UserInfo>>)
    requires u.uid == []
    ensures GetUserById([], false, file, Ok([u])) == Some(u)
    ensures GetOneUserInfo([], InitialUsersCache, 0, false, UserSources(file, file, Ok([u]))).0 == None
  {
  }
}
