/** The derived text of the two user-card components: avatar initials, and
    the badge colour, link and avatar URL of `components/UserCard.tsx`. */
module UserCards {
  import opened Wrappers
  import opened JsString
  import DepartmentColors
  import Gravatar
  import opened Userinfo

  /** `parts.map(part => part[0]).join("")`: the first unit of every part;
      an empty part maps to `undefined`, which `join` writes as "". */
  function FirstUnits(parts: seq<Str>): Str {
    if parts == [] then []
    else (if parts[0] == [] then [] else [parts[0][0]]) + FirstUnits(parts[1..])
  }

  /** The units of `s` that begin a word: not a space, and at the start or
      right after a space (`atStart` says whether the previous unit was a
      space or there was none). */
  function WordHeads(s: Str, atStart: bool): Str {
    if s == [] then []
    else if s[0] == Space then WordHeads(s[1..], true)
    else (if atStart then [s[0]] else []) + WordHeads(s[1..], false)
  }

  /** Taking the first unit of every space-separated part is the same as
      taking every unit that begins a word. */
  lemma {:induction false} FirstUnitsOfSplit(s: Str)
    ensures FirstUnits(Split(s)) == WordHeads(s, true)
    ensures FirstUnits(Split(s)[1..]) == WordHeads(s, false)
    decreases |s|
  {
    if s != [] {
      var rest := Split(s[1..]);
      FirstUnitsOfSplit(s[1..]);
      if s[0] == Space {
        assert Split(s) == [[]] + rest;
        assert (([[]] + rest)[1..]) == rest;
      } else {
        var parts := [[s[0]] + rest[0]] + rest[1..];
        assert Split(s) == parts;
        assert parts[1..] == rest[1..];
        assert parts[0] != [] && parts[0][0] == s[0];
      }
    }
  }

  /** The untruncated initials: `name.split(' ').map(n => n[0]).join('').toUpperCase()`. */
  function Initials(name: Str): (r: Str)
    ensures r == ToUpper(WordHeads(name, true))
  {
    FirstUnitsOfSplit(name);
    ToUpper(FirstUnits(Split(name)))
  }

  /** One initial per word. */
  lemma {:induction false} WordHeadsOfOneWord(s: Str, atStart: bool)
    requires s != [] && Space !in s
    ensures WordHeads(s, atStart) == if atStart then [s[0]] else []
    decreases |s|
  {
    if |s| > 1 {
      WordHeadsOfOneWord(s[1..], false);
    } else {
      assert s[1..] == [];
    }
  }

  lemma OneWordOneInitial(name: Str)
    ensures name != [] && Space !in name ==> WordHeads(name, true) == [name[0]]
  {
    if name != [] && Space !in name {
      WordHeadsOfOneWord(name, true);
    }
  }

  /** Leading, trailing and doubled spaces add no initials: an extra space
      before `s`, after `s`, or beside a space between `a` and `b`. */
  lemma {:induction false} WordHeadsIgnoreExtraSpaces(s: Str, a: Str, b: Str)
    ensures WordHeads([Space] + s, true) == WordHeads(s, true)
    ensures WordHeads(s + [Space], true) == WordHeads(s, true)
    ensures WordHeads(a + [Space, Space] + b, true) == WordHeads(a + [Space] + b, true)
  {
    assert ([Space] + s)[1..] == s;
    TrailingSpaceAddsNothing(s, true);
    DoubledSpaceAddsNothing(a, b, true);
  }

  lemma {:induction false} DoubledSpaceAddsNothing(a: Str, b: Str, atStart: bool)
    ensures WordHeads(a + [Space, Space] + b, atStart) == WordHeads(a + [Space] + b, atStart)
    decreases |a|
  {
    var x := a + [Space, Space] + b;
    var y := a + [Space] + b;
    if a == [] {
      assert x == [Space, Space] + b && y == [Space] + b;
      assert x[1..] == y;
      assert y[1..] == b;
    } else {
      assert x[0] == a[0] && y[0] == a[0];
      assert x[1..] == a[1..] + [Space, Space] + b;
      assert y[1..] == a[1..] + [Space] + b;
      DoubledSpaceAddsNothing(a[1..], b, a[0] == Space);
    }
  }

  lemma {:induction false} TrailingSpaceAddsNothing(s: Str, atStart: bool)
    ensures WordHeads(s + [Space], atStart) == WordHeads(s, atStart)
    decreases |s|
  {
    if s == [] {
      assert [] + [Space] == [Space];
      assert [Space][1..] == [];
    } else {
      assert (s + [Space])[1..] == s[1..] + [Space];
      TrailingSpaceAddsNothing(s[1..], s[0] == Space);
    }
  }

  /** `getInitials` of `components/ucc/userCard.tsx`: at most the first two
      initials. */
  function GetInitials(name: Str): (r: Str)
    ensures |r| <= 2
    ensures r == Take(ToUpper(WordHeads(name, true)), 2)
    ensures name == [] ==> r == []
    ensures name != [] && Space !in name ==> r == [UpperUnit(name[0])]
  {
    OneWordOneInitial(name);
    Take(Initials(name), 2)
  }

  /** What `UserCard` of `components/UserCard.tsx` derives from a record. */
  datatype CardView = CardView(avatarUrl: Str, initials: Str, badgeColor: Str, href: Str)

  /** `UserCard({ user })`: avatar with default options, uncapped initials,
      the department colour of the job title, and a link to `/u/<uid>`. */
  function UserCard(user: UserInfo, md5: Str -> Str, escape: Str -> Str): (r: CardView)
    ensures |r.href| == 3 + |user.uid| && r.href[..3] == Lit("/u/") && r.href[3..] == user.uid
    ensures r.initials == ToUpper(WordHeads(user.displayName, true))
    ensures r.badgeColor == DepartmentColors.DepartmentColor(Some(user.jobTitle))
    ensures r.avatarUrl == Gravatar.AvatarBase + md5(Gravatar.AvatarKey(user.email)) + [Gravatar.QuestionMark]
  {
    CardView(
      Gravatar.GravatarUrl(md5, user.email, [], escape),
      Initials(user.displayName),
      DepartmentColors.DepartmentColor(Some(user.jobTitle)),
      Lit("/u/") + user.uid)
  }

  /** The capped initials are a prefix of the card's uncapped ones. */
  lemma CappedInitialsArePrefix(user: UserInfo, md5: Str -> Str, escape: Str -> Str)
    ensures GetInitials(user.displayName) <= UserCard(user, md5, escape).initials
  {
  }
}
