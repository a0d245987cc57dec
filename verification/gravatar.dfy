/** Avatar URL construction (`getGravatarUrl`). The md5 digest and the
    form-urlencoding of query values are library code, passed in as
    functions. */
module Gravatar {
  import opened JsString

  const AvatarBase: Str := Lit("https://gravatar.com/avatar/")
  const QuestionMark: CodeUnit := 0x3F
  const Ampersand: CodeUnit := 0x26
  const EqualsSign: CodeUnit := 0x3D

  /** The string whose digest names the avatar: `email.toLowerCase().trim()`. */
  function AvatarKey(email: Str): (r: Str)
    ensures forall i :: 0 <= i < |r| ==> !IsUpperAscii(r[i])
    ensures r == [] || (!IsWhitespace(r[0]) && !IsWhitespace(r[|r| - 1]))
  {
    var lower := ToLower(email);
    var r := Trim(lower);
    assert forall i :: 0 <= i < |lower| ==> !IsUpperAscii(lower[i]);
    r
  }

  /** `new URLSearchParams(options).toString()`: `name=value` pairs in order,
      joined by `&`, each side escaped by `escape`. */
  function QueryString(options: seq<(Str, Str)>, escape: Str -> Str): (r: Str)
    ensures options == [] <==> r == []
  {
    if options == [] then []
    else
      var pair := escape(options[0].0) + [EqualsSign] + escape(options[0].1);
      if |options| == 1 then pair else pair + [Ampersand] + QueryString(options[1..], escape)
  }

  /** `getGravatarUrl(email, options)`. */
  function GravatarUrl(md5: Str -> Str, email: Str, options: seq<(Str, Str)>, escape: Str -> Str): (r: Str)
    ensures |r| == |AvatarBase| + |md5(AvatarKey(email))| + 1 + |QueryString(options, escape)|
    ensures r[..|AvatarBase|] == AvatarBase
    ensures r[|AvatarBase|..|AvatarBase| + |md5(AvatarKey(email))|] == md5(AvatarKey(email))
    ensures r[|AvatarBase| + |md5(AvatarKey(email))|] == QuestionMark
    ensures options == [] ==> r[|r| - 1] == QuestionMark
    ensures options != [] ==> |r| > |AvatarBase| + |md5(AvatarKey(email))| + 1
    ensures r[|AvatarBase| + |md5(AvatarKey(email))| + 1..] == QueryString(options, escape)
  {
    AvatarBase + md5(AvatarKey(email)) + [QuestionMark] + QueryString(options, escape)
  }

  /** With the default (empty) options the URL is the digest followed by a
      bare `?`, and it is the same whatever `escape` is. */
  lemma DefaultOptionsUrl(md5: Str -> Str, email: Str, escape: Str -> Str, escape': Str -> Str)
    ensures var r := GravatarUrl(md5, email, [], escape);
      && r == AvatarBase + md5(AvatarKey(email)) + [QuestionMark]
      && r == GravatarUrl(md5, email, [], escape')
  {
  }

  lemma LowerConcat(a: Str, b: Str)
    ensures ToLower(a + b) == ToLower(a) + ToLower(b)
  {
  }

  lemma LowerKeepsAllWhitespace(w: Str)
    requires AllWhitespace(w)
    ensures AllWhitespace(ToLower(w))
  {
    forall i | 0 <= i < |w| ensures IsWhitespace(ToLower(w)[i]) {
      LowerPreservesWhitespace(w[i]);
    }
  }

  /** Surrounding whitespace and letter case do not change the avatar key. */
  lemma AvatarKeyIgnoresCaseAndPadding(w1: Str, a: Str, w2: Str)
    requires AllWhitespace(w1) && AllWhitespace(w2)
    ensures AvatarKey(w1 + a + w2) == Trim(ToLower(a))
  {
    LowerConcat(w1 + a, w2);
    LowerConcat(w1, a);
    LowerKeepsAllWhitespace(w1);
    LowerKeepsAllWhitespace(w2);
    TrimIgnoresPadding(ToLower(w1), ToLower(a), ToLower(w2));
  }

  /** Emails that differ only by letter case or surrounding whitespace get the
      same avatar URL. */
  lemma UrlIgnoresCaseAndPadding(md5: Str -> Str, w1: Str, a: Str, w2: Str, w3: Str, b: Str, w4: Str,
                                 options: seq<(Str, Str)>, escape: Str -> Str)
    requires AllWhitespace(w1) && AllWhitespace(w2) && AllWhitespace(w3) && AllWhitespace(w4)
    requires ToLower(a) == ToLower(b)
    ensures GravatarUrl(md5, w1 + a + w2, options, escape) == GravatarUrl(md5, w3 + b + w4, options, escape)
  {
    AvatarKeyIgnoresCaseAndPadding(w1, a, w2);
    AvatarKeyIgnoresCaseAndPadding(w3, b, w4);
  }
}
