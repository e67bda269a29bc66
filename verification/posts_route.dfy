/** `POST /api/posts` of `src/app/api/posts/route.ts`: validate the submitted
    post, fill in a slug, a date and the categories when missing, and save it. */
module PostsRoute {
  import opened Text
  import opened Decimal
  import opened SlugCodec
  import opened SlugGen
  import opened Resolver
  import opened PostTypes
  import opened PostStore

  /** The JSON body; every field may be missing. */
  datatype Request = Request(
    slug: Option<string>,
    title: Option<string>,
    date: Option<string>,
    content: Option<string>,
    categories: Option<seq<string>>,
    excerpt: Option<string>,
    thumbnail: Option<string>)

  /** 400 "Required fields missing", 200 with the slug, or 500. */
  datatype Response = BadRequest | Saved(slug: string) | ServerError

  /** The slug the server generates from a title at millisecond `now`. */
  function ServerSlug(title: string, now: nat): (r: string)
    ensures StartsWith(r, GenerateSlug(title) + "-")
    ensures r[|GenerateSlug(title)| + 1..] == NatToString(now)
  {
    var stem := GenerateSlug(title) + "-";
    var r := stem + NatToString(now);
    assert r[|stem|..] == NatToString(now);
    r
  }

  /** Slugs generated at different milliseconds differ, whatever the titles:
      the timestamp is everything after the last hyphen. */
  lemma ServerSlugsDistinct(title1: string, now1: nat, title2: string, now2: nat)
    requires now1 != now2
    ensures ServerSlug(title1, now1) != ServerSlug(title2, now2)
  {
    if ServerSlug(title1, now1) == ServerSlug(title2, now2) {
      DigitTailUnique(GenerateSlug(title1), NatToString(now1), GenerateSlug(title2), NatToString(now2));
      NatToStringInjective(now1, now2);
    }
  }

  /** The post the route hands to `savePost`. */
  function Completed(req: Request, now: nat, nowIso: string): (p: Post)
    requires Truthy(req.title) && Truthy(req.content)
    ensures p.title == req.title.value && p.content == req.content.value
    ensures p.slug == if Truthy(req.slug) then req.slug.value else ServerSlug(req.title.value, now)
    ensures p.date == if Truthy(req.date) then req.date.value else nowIso
    ensures req.categories.Some? ==> p.categories == req.categories
    ensures req.categories.None? ==> p.categories == Some([])
    ensures p.excerpt == req.excerpt && p.thumbnail == req.thumbnail
  {
    Post(
      if Truthy(req.slug) then req.slug.value else ServerSlug(req.title.value, now),
      req.title.value,
      OrElse(req.date, nowIso),
      req.content.value,
      Some(if req.categories.Some? then req.categories.value else []),
      req.excerpt,
      req.thumbnail)
  }

  /** The handler. `now` is `Date.now()`, `nowIso` the same instant as an ISO
      string, `cwd` the server's working directory, `saveOk` whether `savePost`
      succeeds. A request without a title or content is refused and nothing is
      written; otherwise the post is saved under its slug and the slug is
      returned. */
  function HandlePost(req: Request, d: Directory, cwd: string, now: nat, nowIso: string, saveOk: bool): (r: (Response, Directory))
    ensures r.0 == BadRequest <==> !Truthy(req.title) || !Truthy(req.content)
    ensures r.0 == BadRequest ==> r.1 == d
    ensures r.0 != BadRequest ==> r.1 == SavePost(d, Completed(req, now, nowIso), cwd, saveOk).1
    ensures r.0 != BadRequest ==> (r.0.Saved? <==> saveOk)
    ensures r.0.Saved? ==> r.0.slug == Completed(req, now, nowIso).slug
    ensures r.0.Saved? && WrittenName(cwd, r.0.slug).Some? ==> WrittenName(cwd, r.0.slug).value in r.1.files
  {
    if !Truthy(req.title) || !Truthy(req.content) then (BadRequest, d)
    else
      var post := Completed(req, now, nowIso);
      var (ok, d') := SavePost(d, post, cwd, saveOk);
      (if ok then Saved(post.slug) else ServerError, d')
  }

  /** From 2001-09-09 on, `Date.now()` has ten or more digits, so the base slug
      of a generated slug is the slug of the title. */
  lemma ServerSlugBase(title: string, now: nat)
    requires now >= 1000000000
    ensures GetBaseSlug(ServerSlug(title, now)) == GenerateSlug(title)
  {
    TenDigits(now);
    BaseOfStamped(GenerateSlug(title), NatToString(now));
  }

  /** The characters of a generated slug mean themselves in a regular expression
      and are never `%` or `/`. */
  lemma ServerSlugSafe(title: string, now: nat)
    ensures RegexSafe(ServerSlug(title, now))
    ensures '%' !in ServerSlug(title, now) && '/' !in ServerSlug(title, now)
  {
    var r := ServerSlug(title, now);
    var g := GenerateSlug(title);
    forall i | 0 <= i < |r| ensures !IsRegexMeta(r[i]) && r[i] != '%' && r[i] != '/' {
      if i < |g| {
        assert r[i] == g[i];
        SlugCharSafe(r[i]);
      } else if i > |g| {
        assert r[i] == r[|g| + 1..][i - |g| - 1];
        SlugCharSafe(r[i]);
      }
    }
  }

  lemma SlugCharSafe(c: char)
    requires InSet(SlugChars, c) || c == '-' || IsAsciiDigit(c)
    ensures !IsRegexMeta(c) && c != '%' && c != '/'
  {
  }

  /** A prefix of a regex-safe string is regex-safe. */
  lemma RegexSafePrefix(s: string, n: nat)
    requires RegexSafe(s) && n <= |s|
    ensures RegexSafe(s[..n])
  {
  }

  /** A post submitted without a slug can be read back under the slug the route
      returned, with the submitted title and content. */
  lemma SubmittedPostReadsBack(req: Request, d: Directory, cwd: string, now: nat, nowIso: string, decode: Decoder, readNow: string)
    requires Valid(d) && !Truthy(req.slug)
    requires Truthy(req.title) && Truthy(req.content)
    ensures HandlePost(req, d, cwd, now, nowIso, true).0.Saved?
    ensures var (resp, d') := HandlePost(req, d, cwd, now, nowIso, true);
      RegexSafe(BaseOf(resp.slug, decode)) && Resolvable(d'.files, resp.slug, decode)
    ensures var (resp, d') := HandlePost(req, d, cwd, now, nowIso, true);
      var got := GetPostBySlug(d', resp.slug, decode, readNow);
      got.Some? && got.value.slug == resp.slug
        && got.value.title == req.title.value && got.value.content == req.content.value
  {
    var post := Completed(req, now, nowIso);
    var slug := post.slug;
    ServerSlugSafe(req.title.value, now);
    RegexSafePrefix(slug, |GetBaseSlug(slug)|);
    SaveThenGet(d, post, cwd, decode, readNow);
  }
}
