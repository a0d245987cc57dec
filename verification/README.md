# Member directory data layer, modelled in Dafny

This project models the data layer of a small member-directory web app
(Next.js, TypeScript). The app reads a static `users.json` and caches the
list for five minutes. It enriches a profile with Gravatar fields, cached per
email digest for one hour. It gives every department a badge colour and
filters the directory by department. The model states and proves what that
code promises.

Modules, one per source file:

- `JsString` (`js_string.dfy`). JavaScript strings as sequences of UTF-16
  code units. It gives `toLowerCase`/`toUpperCase` on ASCII letters, `trim`
  with the exact ECMAScript whitespace set, `split(" ")`, `join`,
  `substring(0, n)` and integer-to-decimal text.
- `StrOrder` (`str_order.dfy`). The code-unit order that the default
  `Array.prototype.sort` uses, and the sorted distinct list it produces.
- `Int32` (`int32.dfy`). `ToInt32` (`x | 0`) and `x << 5` on unbounded
  integers.
- `DepartmentColors` (`lib/departmentColors.ts`). It tries the table, then a
  case-insensitive match, then an int32 polynomial hash turned into an
  `hsl(...)` hue.
- `Gravatar` (`lib/gravatar.ts`). It builds the avatar URL from the digest of
  the normalised email.
- `Userinfo` (`lib/userinfo.ts`). It holds the user record, the first-match
  lookup, the user-list cache, the Gravatar profile cache and
  `getOneUserInfo`. Each cache is an explicit value. A call takes the cache
  and returns its new value. The clock (`now`), the `typeof window` test and
  the outcome of every I/O step (`Ok(data)` or `Err`) are parameters.
- `Users` (`lib/users.ts`). The uncached `getUsers` and `getUserById`.
- `UserActions` (`app/actions/user.ts`). `getFullUserInfo` and its merge
  rule.
- `HomePage` (`app/page.tsx`). The department list, the department filter
  and the count line.
- `UserCards` (`components/ucc/userCard.tsx`, `components/UserCard.tsx`).
  Initials, badge colour, link and avatar URL.

The md5 digest and the escaping done by `URLSearchParams` are library code.
They are passed in as function parameters (`md5`, `escape`). Nothing about
them is assumed.

## Model

| member | source | states |
|---|---|---|
| `DepartmentColors.DepartmentColor` | lib/departmentColors.ts:14-39 | An absent or empty department gets `#e5e7eb`. A department whose lowercase equals a table key's lowercase gets that key's colour. Any other department gets `hsl(hue, 80%, 65%)`, with the hue taken from the hash of the string as given. The result is always the default, a table colour, or an hsl colour with hue in [0, 360). |
| `DepartmentColors.LowerKeysDistinct` | lib/departmentColors.ts:6-11 | No two table keys are equal once lowercased, so the case-insensitive match finds at most one key. |
| `DepartmentColors.ExactKeysResolve` | lib/departmentColors.ts:17-20 | Every table key resolves to its own colour. |
| `DepartmentColors.FinanceInAnyCase` | lib/departmentColors.ts:22-30 | "Finance", "finance" and "FINANCE" all get `#4CAF50`. |
| `DepartmentColors.FirstWhere` | lib/departmentColors.ts:24-26 | `find` returns the first table entry that matches. When it returns nothing, no entry matches. |
| `DepartmentColors.CaseInsensitiveOrHashed` | lib/departmentColors.ts:22-38 | After the exact lookup, a case-insensitive key match gives that key's colour. With no such match, the hsl colour of the hash is returned. |
| `DepartmentColors.Hash` | lib/departmentColors.ts:33-35 | The hash of a department is a signed 32-bit integer. `HashIsPolynomial` gives its value. |
| `DepartmentColors.HashFrom` | lib/departmentColors.ts:33-35 | The reducer's accumulator stays a signed 32-bit integer after every step. |
| `DepartmentColors.HashStepIsPolynomialStep` | lib/departmentColors.ts:34 | `((acc << 5) - acc) + code \| 0` equals `31*acc + code` reduced to int32. |
| `DepartmentColors.HashIsPolynomial` | lib/departmentColors.ts:33-35 | The hash is the base-31 polynomial of the code units, reduced to int32 once. The wrap-around at each step loses nothing. |
| `DepartmentColors.Hue` | lib/departmentColors.ts:37 | `Math.abs(hash) % 360` lies in [0, 360) and is congruent to the absolute value of the hash. |
| `DepartmentColors.HueOfMinInt32` | lib/departmentColors.ts:37 | For hash -2^31 the hue is 128. JavaScript numbers hold 2^31 exactly. |
| `DepartmentColors.HslRoundTrip` | lib/departmentColors.ts:38 | The fallback colour is `hsl(`, then the decimal digits of the hue, then `, 80%, 65%)`. The digits read back as the hue. |
| `DepartmentColors.FallbackKeepsCase` | lib/departmentColors.ts:33-38 | The fallback hashes the department with its casing kept. A one-letter lowercase department and its uppercase form get different colours. |
| `DepartmentColors.DepartmentColorAsWritten` | lib/departmentColors.ts:18-20 | The exact lookup as written is a plain property read. It can return an inherited prototype member only when the department is named after one. |
| `DepartmentColors.ConstructorIsNotAColor` | lib/departmentColors.ts:18-20 | As written, the department "constructor" returns the inherited `Object` member, not a colour. |
| `DepartmentColors.AsWrittenDiffersOnlyOnPrototypeMembers` | lib/departmentColors.ts:14-39 | The code as written returns a non-colour exactly for the inherited member names. On every other department it agrees with `DepartmentColor`. |
| `Int32.ToInt32` | lib/departmentColors.ts:34 | `x \| 0` is a signed 32-bit value congruent to `x` modulo 2^32. |
| `Int32.ShiftLeft5` | lib/departmentColors.ts:34 | `x << 5` is a signed 32-bit value congruent to `32*x` modulo 2^32. |
| `JsString.DecimalRoundTrip` | lib/departmentColors.ts:38 | The decimal text of a non-negative integer, as in `${hue}`, reads back as that integer. |
| `JsString.Trim` | lib/userinfo.ts:95 | `trim()` returns a slice of the input. Everything cut away is whitespace, and the slice neither starts nor ends with whitespace. |
| `JsString.TrimLowerCommute` | lib/gravatar.ts:4 | `trim().toLowerCase()` and `toLowerCase().trim()` give the same string. |
| `JsString.TrimIgnoresPadding` | lib/gravatar.ts:4 | Whitespace added around a string does not change its `trim()`. |
| `JsString.Split` | components/ucc/userCard.tsx:17 | `split(" ")` yields at least one part, and no part contains a space. |
| `JsString.SplitJoin` | components/ucc/userCard.tsx:17 | Joining the parts of `split(" ")` with a space gives the name back. |
| `JsString.Take` | components/ucc/userCard.tsx:21 | `substring(0, n)` is a prefix of length `min(n, length)`. |
| `StrOrder.LessTransitive` | app/page.tsx:22 | The default sort order on strings is transitive. |
| `StrOrder.LessTotal` | app/page.tsx:22 | Any two distinct strings are ordered one way or the other. |
| `StrOrder.Insert` | app/page.tsx:20-22 | Inserting into a sorted duplicate-free list keeps it sorted and duplicate-free. It adds exactly the new title. |
| `StrOrder.SortedDistinct` | app/page.tsx:20-22 | `Array.from(new Set(titles)).sort()` is strictly increasing and holds exactly the titles. |
| `StrOrder.StrictlyIncreasingUnique` | app/page.tsx:20-22 | Two strictly increasing lists with the same elements are equal, so the result does not depend on insertion order. |
| `Gravatar.AvatarKey` | lib/gravatar.ts:4 | The normalised email `email.toLowerCase().trim()` contains no uppercase ASCII letter, and it neither starts nor ends with whitespace. |
| `Gravatar.GravatarUrl` | lib/gravatar.ts:3-7 | The URL is `https://gravatar.com/avatar/`, then md5 of `trim(lower(email))`, then `?`, then exactly `QueryString(options, escape)` (the `params.toString()` text) to the end. With no options it ends in `?`. |
| `Gravatar.QueryString` | lib/gravatar.ts:5 | The query string is empty exactly when there are no options. |
| `Gravatar.DefaultOptionsUrl` | lib/gravatar.ts:3-6 | With the default `{}` options the URL is the base plus the digest plus a bare `?`, whatever the escaping. |
| `Gravatar.AvatarKeyIgnoresCaseAndPadding` | lib/gravatar.ts:4 | Surrounding whitespace does not change the normalised email. |
| `Gravatar.UrlIgnoresCaseAndPadding` | lib/gravatar.ts:3-6 | Emails that differ only in letter case or surrounding whitespace give the same URL. |
| `Userinfo.FirstIndexOf` | lib/userinfo.ts:161 | Gives the position of the first record with the id. Earlier records have other ids. It finds nothing exactly when no record has the id. |
| `Userinfo.FindByUid` | lib/userinfo.ts:161 | `find` gives the first record with the id. It gives nothing exactly when no record has it. |
| `Userinfo.Load` | lib/userinfo.ts:30-74 | On the server a successful file read is the answer, with no other step. The HTTP fallback runs, and its result is the answer, only after the read fails. In the browser the one fetch is the answer. The load succeeds exactly when a step on that path succeeds. |
| `Userinfo.GetAllUsers` | lib/userinfo.ts:22-80 | A fresh cache (age < 300000 ms; age == TTL is expired; an empty list still counts) is returned unchanged with no I/O. Otherwise exactly the steps of `Load` are taken. On success the cache becomes (the loaded list, now). On failure the old list comes back, however stale, or [] if none, and the cache is unchanged. The answer always equals what the cache holds afterwards. The slot is never emptied. |
| `Userinfo.ServedFromCacheWithinTtl` | lib/userinfo.ts:24-28 | After a successful load at t1, a call less than five minutes later does no I/O and returns the same list. |
| `Userinfo.AtMostOneLoadWithinTtl` | lib/userinfo.ts:24-45 | Two calls less than five minutes apart, with the source available, make at most one load between them. |
| `Userinfo.NeverForgets` | lib/userinfo.ts:75-79 | Once a non-empty list is cached, [] comes back only from a fresh load of an empty file. |
| `Userinfo.GetOneUserInfo` | lib/userinfo.ts:156-167 | An empty id gives null, with no load. Otherwise the result is the first record with that id in the (cached) list, the one `find` returns. It is null exactly when none has it. |
| `Userinfo.ProfileOf` | lib/userinfo.ts:120-122 | The profile is the first entry's `aboutMe` and `thumbnailUrl`. A missing field, entry or entry list gives "". |
| `Userinfo.ProfileKeyIsAvatarDigest` | lib/userinfo.ts:95 | The profile-cache key `md5(trim(lower))` equals the digest in the avatar URL. |
| `Userinfo.GetGravatarInfo` | lib/userinfo.ts:84-146 | In the browser, or for an empty email, the fields are empty and there is no request and no cache change. A fresh entry (age < 1 h) is served without a request. Otherwise one request goes to `https://www.gravatar.com/<key>.json`. On success only this key's entry is written, stamped `now`. On failure the cache is unchanged. The answer is the entry for the key, or empty fields. Entries for other keys never change. |
| `Userinfo.ProfileServedFromCacheWithinTtl` | lib/userinfo.ts:94-102 | After a successful fetch, any call within the hour for the same address, in any casing or padding, is answered from the cache without a request. |
| `Userinfo.StaleProfileSurvivesFailure` | lib/userinfo.ts:137-142 | A failed request returns the stored profile for the key, however old. |
| `Users.GetUsers` | lib/users.ts:5-31 | The server reads the file and the browser fetches. Any failure gives [], with no cache and no stale fallback. |
| `Users.OnePathOnly` | lib/users.ts:10-26 | The server path never depends on the fetch, and the browser path never depends on the file. |
| `Users.GetUserById` | lib/users.ts:33-41 | A result has the requested uid and is the first such record. Null comes back exactly when no record has that uid. |
| `Users.EmptyIdIsLookedUp` | lib/users.ts:33-36 | The empty id is searched like any other. `getOneUserInfo` returns null for it instead. |
| `UserActions.Prefer` | app/actions/user.ts:21-22 | `a \|\| b \|\| ""`: a non-empty enrichment value wins, then a non-empty record value, then "". |
| `UserActions.Enrich` | app/actions/user.ts:17-28 | The merge keeps uid, displayName, email and job title. It sets `aboutMe` and `thumbnailUrl` by that precedence. When enrichment throws, the record is returned untouched. |
| `UserActions.EnrichKeepsNonEmptyAndIsIdempotent` | app/actions/user.ts:19-23 | A field that was non-empty stays non-empty. Merging the same profile twice changes nothing more. |
| `UserActions.EnrichmentOverridesExistingBio` | app/actions/user.ts:21 | A non-empty Gravatar bio replaces a different non-empty bio already in the record. |
| `UserActions.GetFullUserInfo` | app/actions/user.ts:6-36 | An empty id gives null, and nothing is loaded. An id absent from the list gives null, with no profile request. A record with an empty email comes back unchanged, with no request. Otherwise the record comes back with only the two profile fields merged from `getGravatarInfo`. The profile cache and the request are exactly those of that `getGravatarInfo` call. |
| `HomePage.Departments` | app/page.tsx:20-24 | The list is "All", then the job titles strictly ascending (no duplicates). The titles are exactly those of the users. |
| `HomePage.DepartmentsDependOnlyOnTitles` | app/page.tsx:20-24 | Users with the same set of titles give the same department list, whatever their order or repetitions. |
| `HomePage.WithTitle` | app/page.tsx:37 | The filter keeps exactly the users with that title, each as many times as it occurs, in their original order. |
| `HomePage.FilterUsers` | app/page.tsx:33-39 | "All" yields exactly the users. Any other selection yields the order-preserving sub-list of users whose title equals it. |
| `HomePage.EveryUserShownUnderOwnTitle` | app/page.tsx:20-37 | Every user's title is a listed department, and selecting it shows that user. |
| `HomePage.TitleAllIsShadowed` | app/page.tsx:24-37 | A job title spelled "All" is listed as a second "All" button. Selecting it shows every user. |
| `HomePage.CountLabel` | app/page.tsx:71-74 | The line starts "Showing n user", with a plural "s" next exactly when n != 1. It ends in " in " followed by the selection exactly when the selection is not "All". Its length leaves room for nothing else, so these parts are the whole line. |
| `HomePage.CountLabelAsRendered` | app/page.tsx:72-73 | The line equals the rendered text `Showing {n} {n === 1 ? 'user' : 'users'}` followed by ` in {selected}` unless "All" is selected. |
| `HomePage.CountLabelShowsCount` | app/page.tsx:72 | The digits after "Showing " are the decimal text of the count and read back as it. |
| `HomePage.CountLabelShowsFilteredSize` | app/page.tsx:33-72 | The digits after "Showing " read back as the number of users the filter keeps. |
| `UserCards.FirstUnitsOfSplit` | components/ucc/userCard.tsx:16-19 | Taking `part[0]` of every space-separated part, with empty parts adding nothing, gives exactly the code units that begin a word. |
| `UserCards.WordHeadsIgnoreExtraSpaces` | components/ucc/userCard.tsx:17-19 | Leading, trailing or doubled spaces add no initials. An extra space before the name, after it, or beside any space inside it leaves the word-initial units unchanged. |
| `UserCards.GetInitials` | components/ucc/userCard.tsx:15-22 | Initials are at most two units: the uppercased word-initial units, cut to two. An empty name gives "". A single non-empty word gives one unit. |
| `UserCards.Initials` | components/UserCard.tsx:17-21 | The card's initials are the uppercased first units of all words, with no cap. |
| `UserCards.UserCard` | components/UserCard.tsx:14-27 | The link is `/u/` followed by the uid. The badge colour is the department colour of the job title. The avatar is the Gravatar URL with empty options. The initials are uncapped. |
| `UserCards.CappedInitialsArePrefix` | components/ucc/userCard.tsx:21 | The two-unit initials are a prefix of the uncapped ones. |

## Findings

| source | as written | input that shows it | evidently intended | confidence | as-written member | corrected member |
|---|---|---|---|---|---|---|
| lib/departmentColors.ts:18-20 | `departmentColorMap[department]` is a plain property read on an object literal. A department named after an inherited `Object.prototype` member finds that truthy member, and `getDepartmentColor` returns it as the colour. | department `"constructor"` returns the `Object` function. `"toString"`, `"valueOf"`, `"__proto__"` and the other inherited names behave the same way. | Only the table's own keys match. Every other department goes on to the case-insensitive match and the hash fallback, so the result is always a colour string. | high (not executed) | `DepartmentColors.DepartmentColorAsWritten` (counterexample: `DepartmentColors.ConstructorIsNotAColor`) | `DepartmentColors.DepartmentColor` |

`DepartmentColor` is the resolver the rest of the model uses.

## Behaviour worth knowing

- Enrichment precedence. `aboutMe || user.aboutMe || ""` lets a non-empty
  Gravatar value replace a non-empty value already in the record, not only
  fill an empty one (`UserActions.EnrichmentOverridesExistingBio`).
- Fallback colours. Table entries match in any casing. The hash fallback
  uses the string's original casing, so "a" and "A" get different colours
  (`DepartmentColors.FallbackKeepsCase`).
- One failure path. A failed file read on the server is followed by the HTTP
  fallback. When that fails too, or any other step throws, control reaches
  the single outer `catch` of `getAllUserFromLocal`. It returns the stale
  cache or `[]` (`Userinfo.GetAllUsers`, `Userinfo.Load`).

## Left out

- Real I/O is not modelled: file reads, `fetch`, `JSON.parse`,
  `response.json`, `process.cwd` and the base URL. Each becomes an `Outcome`
  parameter. A parsed `users.json` is assumed to be a well-formed list of
  records, as the code assumes.
- The 3-second `AbortController` timeout is left out. A timeout is one more
  `Err` outcome of the Gravatar fetch.
- md5 and `URLSearchParams` escaping are foreign library code. They are
  function parameters, and no property of them (such as collision
  resistance) is assumed.
- Case mapping covers ASCII letters only. Full Unicode `toLowerCase` and
  `toUpperCase` are not modelled, including mappings that change length.
  Lowercasing keeps whitespace unchanged, which the Unicode mapping also
  does.
- `Lit`: source string literals are read as ASCII, one code unit per
  character. Every literal the code uses is ASCII.
- `UserCards.UserCard`: the badge colour comes from the corrected
  `DepartmentColor`, not from the code as written. For a job title named after
  an inherited `Object.prototype` member, such as "toString", the code passes
  that inherited function as the colour. The model gives the hsl colour
  instead. `DepartmentColors.DepartmentColorAsWritten` models the difference.
- `getGravatarUrl` option values are taken as strings. Numeric values would
  be converted to their decimal text first, and that conversion is not
  modelled.
- `getGravatarProfile` (lib/gravatar.ts:28-41) is not modelled. Nothing in
  the directory core calls it.
- `getUserInfo` (lib/userinfo.ts:150-153) is not modelled. It is a
  placeholder that only warns and returns empty fields.
- The outer `catch` blocks at lib/userinfo.ts:163-166 and
  app/actions/user.ts:32-35 are not modelled. `getAllUserFromLocal` catches
  every failure itself, so these blocks cannot run.
- The inner `catch` at app/actions/user.ts:24-27 is modelled by
  `UserActions.Enrich` with `Err`. `getGravatarInfo` cannot throw for a
  string email, so `GetFullUserInfo` always passes it `Ok`.
- Both `lib/users.ts` and `lib/userinfo.ts` use the one `UserInfo` record.
  The `User` type of types/user.ts has the same JSON fields, without
  `thumbnailUrl`.
- Concurrency is not modelled. Concurrent refreshes race last-writer-wins,
  and the model treats calls one at a time.
- Presentation code is not modelled: React state and effects, rendering,
  hover state, `components/Header.tsx` and `components/DepartmentFilter.tsx`.
  Console logging and the `revalidate` hint are left out too.
