/** The pure parts of the directory page (`app/page.tsx`): the department
    list, the department filter and the count line. */
module HomePage {
  import opened JsString
  import opened StrOrder
  import opened Userinfo

  const All: Str := Lit("All")

  /** `usersData.map(user => user.job_title)`. */
  function JobTitles(users: seq<UserInfo>): (r: seq<Str>)
    ensures |r| == |users|
    ensures forall i :: 0 <= i < |users| ==> r[i] == users[i].jobTitle
  {
    seq(|users|, i requires 0 <= i < |users| => users[i].jobTitle)
  }

  /** Some user has job title `t`. */
  predicate HasTitle(users: seq<UserInfo>, t: Str) {
    exists i :: 0 <= i < |users| && users[i].jobTitle == t
  }

  /** `["All", ...Array.from(new Set(titles)).sort()]`. */
  function Departments(users: seq<UserInfo>): (r: seq<Str>)
    ensures |r| >= 1 && r[0] == All
    ensures StrictlyIncreasing(r[1..])
    ensures forall t :: t in r[1..] <==> HasTitle(users, t)
  {
    var titles := JobTitles(users);
    var sorted := SortedDistinct(titles);
    assert ([All] + sorted)[1..] == sorted;
    forall t ensures t in sorted <==> HasTitle(users, t) {
      if t in sorted {
        var i :| 0 <= i < |titles| && titles[i] == t;
      }
      if HasTitle(users, t) {
        var i :| 0 <= i < |users| && users[i].jobTitle == t;
        assert titles[i] == t;
      }
    }
    [All] + sorted
  }

  /** The department list depends only on which titles occur: reordering or
      repeating users leaves it unchanged. */
  lemma DepartmentsDependOnlyOnTitles(a: seq<UserInfo>, b: seq<UserInfo>)
    requires forall t :: HasTitle(a, t) <==> HasTitle(b, t)
    ensures Departments(a) == Departments(b)
  {
    var da := Departments(a);
    var db := Departments(b);
    StrictlyIncreasingUnique(da[1..], db[1..]);
    assert da == [da[0]] + da[1..] && db == [db[0]] + db[1..];
  }

  /** `users.filter(user => user.job_title === title)`. */
  function WithTitle(users: seq<UserInfo>, title: Str): (r: seq<UserInfo>)
    ensures forall i :: 0 <= i < |r| ==> r[i].jobTitle == title
    ensures forall u :: multiset(r)[u] == if u.jobTitle == title then multiset(users)[u] else 0
    ensures IsSubsequence(r, users)
  {
    if users == [] then []
    else
      var rest := WithTitle(users[1..], title);
      assert users == [users[0]] + users[1..];
      assert multiset(users) == multiset{users[0]} + multiset(users[1..]);
      if users[0].jobTitle == title then
        assert ([users[0]] + rest)[1..] == rest;
        [users[0]] + rest
      else
        SubsequenceOfTail(rest, users);
        rest
  }

  /** `a` is `b` with some elements left out, the rest in their order. */
  predicate IsSubsequence(a: seq<UserInfo>, b: seq<UserInfo>)
    decreases |b|
  {
    if a == [] then true
    else if b == [] then false
    else (a[0] == b[0] && IsSubsequence(a[1..], b[1..])) || IsSubsequence(a, b[1..])
  }

  lemma SubsequenceOfTail(a: seq<UserInfo>, b: seq<UserInfo>)
    requires b != [] && IsSubsequence(a, b[1..])
    ensures IsSubsequence(a, b)
  {
  }

  /** The filter effect: "All" shows every user, any other choice the users
      with exactly that job title, in their original order. */
  function FilterUsers(users: seq<UserInfo>, selected: Str): (r: seq<UserInfo>)
    ensures selected == All ==> r == users
    ensures selected != All ==> forall i :: 0 <= i < |r| ==> r[i].jobTitle == selected
    ensures selected != All ==>
              forall u :: multiset(r)[u] == if u.jobTitle == selected then multiset(users)[u] else 0
    ensures IsSubsequence(r, users)
  {
    if selected == All then
      SubsequenceOfSelf(users);
      users
    else WithTitle(users, selected)
  }

  lemma {:induction false} SubsequenceOfSelf(s: seq<UserInfo>)
    ensures IsSubsequence(s, s)
    decreases |s|
  {
    if s != [] {
      SubsequenceOfSelf(s[1..]);
    }
  }

  /** Choosing a user's own department button always shows that user. */
  lemma EveryUserShownUnderOwnTitle(users: seq<UserInfo>, u: UserInfo)
    requires u in users
    ensures u in FilterUsers(users, u.jobTitle)
    ensures u.jobTitle in Departments(users)
  {
    var i :| 0 <= i < |users| && users[i] == u;
    assert u.jobTitle in Departments(users)[1..];
    assert multiset(users)[u] > 0;
  }

  /** A job title spelled "All" is listed as a second "All" button, and
      choosing it shows every user, not only those with that title. */
  lemma TitleAllIsShadowed(users: seq<UserInfo>)
    requires HasTitle(users, All)
    ensures All in Departments(users)[1..]
    ensures FilterUsers(users, All) == users
  {
  }

  /** The count line: "Showing n user", an "s" unless n is 1, then
      ` in {selected}` unless "All" is selected. `CountLabelAsRendered`
      shows this is the text `Showing {n} {n === 1 ? 'user' : 'users'}`
      followed by that suffix. */
  function CountLabel(count: nat, selected: Str): (r: Str)
    ensures var head := Lit("Showing ") + DecimalString(count) + Lit(" user");
      && |r| >= |head|
      && r[..|head|] == head
      && (count != 1 <==> |r| > |head| && r[|head|] == 's' as int)
      && (selected == All <==> |r| == |head| + (if count == 1 then 0 else 1))
    ensures selected != All ==> |r| >= |selected| + 4 && r[|r| - |selected| - 4..] == Lit(" in ") + selected
    // Nothing else: the head, the plural "s" and the suffix make up the whole line.
    ensures var head := Lit("Showing ") + DecimalString(count) + Lit(" user");
      |r| == |head| + (if count == 1 then 0 else 1) + (if selected == All then 0 else 4 + |selected|)
  {
    var head := Lit("Showing ") + DecimalString(count) + Lit(" user");
    var plural := if count == 1 then [] else Lit("s");
    var place := if selected == All then [] else Lit(" in ") + selected;
    ThreeParts(head, plural, place);
    head + plural + place
  }

  /** The count line is exactly what the page renders. */
  lemma CountLabelAsRendered(count: nat, selected: Str)
    ensures CountLabel(count, selected) ==
      Lit("Showing ") + DecimalString(count) + Lit(" ")
        + (if count == 1 then Lit("user") else Lit("users"))
        + (if selected == All then [] else Lit(" in ") + selected)
  {
    var front := Lit("Showing ") + DecimalString(count);
    var noun := if count == 1 then Lit("user") else Lit("users");
    var plural := if count == 1 then [] else Lit("s");
    var place := if selected == All then [] else Lit(" in ") + selected;
    assert Lit(" user") + plural == Lit(" ") + noun by {
      LitAppend(" ", "user");
      LitAppend(" user", "s");
      LitAppend(" ", "users");
      assert " " + "user" == " user";
      assert " user" + "s" == " " + "users";
    }
    calc {
      CountLabel(count, selected);
      front + Lit(" user") + plural + place;
      front + (Lit(" user") + plural) + place;
      front + (Lit(" ") + noun) + place;
      front + Lit(" ") + noun + place;
    }
  }

  /** Where the three parts of `a + b + c` sit. */
  lemma ThreeParts(a: Str, b: Str, c: Str)
    ensures var r := a + b + c;
      && |r| == |a| + |b| + |c|
      && r[..|a|] == a
      && r[|a|..|a| + |b|] == b
      && r[|a| + |b|..] == c
  {
  }

  /** The digits after "Showing " read back as the count. */
  lemma CountLabelShowsCount(count: nat, selected: Str)
    ensures var r := CountLabel(count, selected);
            var d := DecimalString(count);
            |r| >= 8 + |d| && r[8..8 + |d|] == d && DecimalValue(r[8..8 + |d|]) == count
  {
    var r := CountLabel(count, selected);
    var d := DecimalString(count);
    var head := Lit("Showing ") + d + Lit(" user");
    assert |Lit("Showing ")| == 8;
    assert r[8..8 + |d|] == d by {
      ThreeParts(Lit("Showing "), d, Lit(" user"));
      SliceOfPrefix(r, head, 8, 8 + |d|);
    }
    DecimalRoundTrip(count);
  }

  /** A slice inside a known prefix is the same slice of that prefix. */
  lemma SliceOfPrefix(r: Str, head: Str, i: nat, j: nat)
    requires |head| <= |r| && r[..|head|] == head && i <= j <= |head|
    ensures r[i..j] == head[i..j]
  {
    assert forall k :: i <= k < j ==> r[k] == r[..|head|][k];
  }

  /** The number on the count line is the size of the filtered list: the
      digits after "Showing " read back as that size. */
  lemma CountLabelShowsFilteredSize(users: seq<UserInfo>, selected: Str)
    ensures var n := |FilterUsers(users, selected)|;
            var r := CountLabel(n, selected);
            var d := DecimalString(n);
            |r| >= 8 + |d|
            && (forall i :: 8 <= i < 8 + |d| ==> IsDigit(r[i]))
            && DecimalValue(r[8..8 + |d|]) == n
  {
    var n := |FilterUsers(users, selected)|;
    CountLabelShowsCount(n, selected);
    var r := CountLabel(n, selected);
    var d := DecimalString(n);
    forall i | 8 <= i < 8 + |d| ensures IsDigit(r[i]) {
      assert r[i] == r[8..8 + |d|][i - 8] == d[i - 8];
    }
  }
}
