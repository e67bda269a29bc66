/** The submit path of the post editor (`src/components/form/write-form/WriteForm.tsx`
    and its older copy `src/components/WriteForm.tsx`, which agree on it): the
    client-side slug generator and the request body sent to `POST /api/posts`. */
module WriteForm {
  import opened Text
  import opened Decimal
  import opened SlugCodec
  import opened SlugGen
  import opened Resolver
  import opened PostStore
  import opened PostsRoute

  /** The sanitised title part of `generateSafeSlug`: trim, then sanitise with
      `[\wㄱ-ㅎㅏ-ㅣ가-힣]`. */
  function SafeSlugPart(text: string): (r: string)
    ensures Clean(r, SafeSlugChars)
    ensures Kept(SafeSlugChars, r) == Kept(SafeSlugChars, Trim(text))
  {
    Sanitise(Trim(text), SafeSlugChars)
  }

  /** White space is outside the safe class, so trimming first changes nothing:
      the title part is the sanitised title. */
  lemma TrimIrrelevant(text: string)
    ensures SafeSlugPart(text) == Sanitise(text, SafeSlugChars)
  {
    var lead, tail := TrimPieces(text);
    SpaceNotKept(lead);
    SpaceNotKept(tail);
    SanitiseDropsLeading(lead, Trim(text) + tail, SafeSlugChars);
    SanitiseDropsTrailing(Trim(text), tail, SafeSlugChars);
  }

  lemma SpaceNotKept(w: string)
    requires AllSpace(w)
    ensures Kept(SafeSlugChars, w) == ""
  {
    NothingKept(SafeSlugChars, w);
  }

  /** A character outside `[\wㄱ-ㅎㅏ-ㅣ가-힣]` between texts that each have
      something to keep becomes exactly one hyphen of the title part. */
  lemma SafeSlugPartSplits(a: string, c: char, b: string)
    requires !InSet(SafeSlugChars, c)
    requires Kept(SafeSlugChars, a) != "" && Kept(SafeSlugChars, b) != ""
    ensures SafeSlugPart(a + [c] + b) == SafeSlugPart(a) + "-" + SafeSlugPart(b)
  {
    TrimIrrelevant(a + [c] + b);
    TrimIrrelevant(a);
    TrimIrrelevant(b);
    SanitiseSplits(a, c, b, SafeSlugChars);
  }

  /** `generateSafeSlug(text)` at millisecond `now`: the sanitised title, a
      hyphen and the timestamp. The title part may be empty. */
  function GenerateSafeSlug(text: string, now: nat): (r: string)
    ensures StartsWith(r, SafeSlugPart(text) + "-")
    ensures r[|SafeSlugPart(text)| + 1..] == NatToString(now)
  {
    var stem := SafeSlugPart(text) + "-";
    var r := stem + NatToString(now);
    assert r[|stem|..] == NatToString(now);
    r
  }

  /** Form slugs generated at different milliseconds differ, whatever the
      titles. */
  lemma SafeSlugsDistinct(text1: string, now1: nat, text2: string, now2: nat)
    requires now1 != now2
    ensures GenerateSafeSlug(text1, now1) != GenerateSafeSlug(text2, now2)
  {
    if GenerateSafeSlug(text1, now1) == GenerateSafeSlug(text2, now2) {
      DigitTailUnique(SafeSlugPart(text1), NatToString(now1), SafeSlugPart(text2), NatToString(now2));
      NatToStringInjective(now1, now2);
    }
  }

  /** No character the safe sanitiser keeps is white space. */
  lemma SafeCharNotSpace(c: char)
    requires InSet(SafeSlugChars, c) || c == '-'
    ensures !IsJsSpace(c)
  {
  }

  /** The title part of a generated slug is its own title part. */
  lemma SafeSlugPartIdempotent(text: string)
    ensures SafeSlugPart(SafeSlugPart(text)) == SafeSlugPart(text)
  {
    var s := SafeSlugPart(text);
    if |s| > 0 {
      SafeCharNotSpace(s[0]);
      SafeCharNotSpace(s[|s| - 1]);
    }
    TrimIdentity(s);
    SanitiseClean(s, SafeSlugChars);
  }

  /** From 2001-09-09 on, the server's base slug of a form-generated slug is its
      title part. */
  lemma SafeSlugBase(text: string, now: nat)
    requires now >= 1000000000
    ensures GetBaseSlug(GenerateSafeSlug(text, now)) == SafeSlugPart(text)
  {
    TenDigits(now);
    BaseOfStamped(SafeSlugPart(text), NatToString(now));
  }

  lemma SafeCharRegexSafe(c: char)
    requires InSet(SafeSlugChars, c) || c == '-' || IsAsciiDigit(c)
    ensures !IsRegexMeta(c) && c != '%' && c != '/'
  {
  }

  /** A form-generated slug is never percent-decoded, names a file directly in
      the posts directory and means itself in a regular expression. */
  lemma SafeSlugSafe(text: string, now: nat)
    ensures RegexSafe(GenerateSafeSlug(text, now))
    ensures '%' !in GenerateSafeSlug(text, now) && '/' !in GenerateSafeSlug(text, now)
  {
    var r := GenerateSafeSlug(text, now);
    var g := SafeSlugPart(text);
    forall i | 0 <= i < |r| ensures !IsRegexMeta(r[i]) && r[i] != '%' && r[i] != '/' {
      if i < |g| {
        assert r[i] == g[i];
        SafeCharRegexSafe(r[i]);
      } else if i > |g| {
        assert r[i] == r[|g| + 1..][i - |g| - 1];
        SafeCharRegexSafe(r[i]);
      }
    }
  }

  /** The editor's fields. */
  datatype Form = Form(title: string, content: string, categories: seq<string>, thumbnail: Option<string>)

  /** `handleSubmit`: nothing is sent when the title or the content is empty;
      otherwise the body carries the fields, a generated slug and the current
      date, and no excerpt. */
  function HandleSubmit(form: Form, now: nat, nowIso: string): (r: Option<Request>)
    ensures r.None? <==> form.title == "" || form.content == ""
    ensures r.Some? ==> r.value.title == Some(form.title) && r.value.content == Some(form.content)
    ensures r.Some? ==> r.value.slug == Some(GenerateSafeSlug(form.title, now))
    ensures r.Some? ==> r.value.date == Some(nowIso) && r.value.categories == Some(form.categories)
    ensures r.Some? ==> r.value.excerpt.None? && r.value.thumbnail == form.thumbnail
  {
    if form.title == "" || form.content == "" then None
    else Some(Request(
      Some(GenerateSafeSlug(form.title, now)),
      Some(form.title),
      Some(nowIso),
      Some(form.content),
      Some(form.categories),
      None,
      form.thumbnail))
  }

  /** Whatever the form sends passes the route's validation, and the route keeps
      the form's slug rather than generating its own. */
  lemma FormRequestAccepted(form: Form, now: nat, nowIso: string, d: Directory, cwd: string, serverNow: nat, serverIso: string)
    requires HandleSubmit(form, now, nowIso).Some?
    ensures var req := HandleSubmit(form, now, nowIso).value;
      HandlePost(req, d, cwd, serverNow, serverIso, true).0 == Saved(GenerateSafeSlug(form.title, now))
  {
  }

  /** A submitted post can be read back under the slug the form generated. */
  lemma SubmittedFormReadsBack(form: Form, now: nat, nowIso: string, d: Directory, cwd: string, serverNow: nat, serverIso: string, decode: Decoder, readNow: string)
    requires Valid(d) && HandleSubmit(form, now, nowIso).Some? && nowIso != ""
    ensures RegexSafe(BaseOf(GenerateSafeSlug(form.title, now), decode))
    ensures var req := HandleSubmit(form, now, nowIso).value;
      var d' := HandlePost(req, d, cwd, serverNow, serverIso, true).1;
      Resolvable(d'.files, GenerateSafeSlug(form.title, now), decode)
    ensures var req := HandleSubmit(form, now, nowIso).value;
      var d' := HandlePost(req, d, cwd, serverNow, serverIso, true).1;
      var got := GetPostBySlug(d', GenerateSafeSlug(form.title, now), decode, readNow);
      got.Some? && got.value.title == form.title && got.value.content == form.content
        && got.value.categories == Some(form.categories) && got.value.date == nowIso
  {
    var req := HandleSubmit(form, now, nowIso).value;
    var slug := GenerateSafeSlug(form.title, now);
    SafeSlugSafe(form.title, now);
    RegexSafePrefix(slug, |GetBaseSlug(slug)|);
    var post := Completed(req, serverNow, serverIso);
    assert post.slug == slug && post.title == form.title && post.content == form.content;
    assert post.date == nowIso && post.categories == Some(form.categories);
    var d' := HandlePost(req, d, cwd, serverNow, serverIso, true).1;
    assert d' == SavePost(d, post, cwd, true).1;
    SaveThenGet(d, post, cwd, decode, readNow);
    var back := ReadBack(post, readNow);
    assert back.title == form.title && back.content == form.content;
    assert back.date == nowIso && back.categories == Some(form.categories);
  }
}
