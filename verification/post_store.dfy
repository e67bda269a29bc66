/** The server-side post repository of `src/lib/server/posts.ts`: one markdown
    file per post in a posts directory, read through the slug resolver, listed,
    grouped by category, written and deleted. File-system calls are replaced by
    an immutable directory value, and the front-matter codec by the record it
    reads back. */
module PostStore {
  import opened Text
  import opened Seqs
  import opened SlugCodec
  import opened Resolver
  import opened PostTypes
  import opened ClientPosts
  import opened Decimal
  import opened NodePath

  /** `categories` as it comes out of the front matter: missing, a single
      scalar, or a list. */
  datatype CategoriesField = Unset | Single(name: string) | Many(names: seq<string>)

  /** The front-matter fields the repository reads and writes. */
  datatype FrontMatter = FrontMatter(
    title: Option<string>,
    date: Option<string>,
    categories: CategoriesField,
    excerpt: Option<string>,
    thumbnail: Option<string>)

  /** A parsed post file: front matter and markdown body. */
  datatype Stored = Stored(data: FrontMatter, content: string)

  /** The posts directory: its listing in enumeration order, and the parse of
      every listed file that can be read and parsed. A listed file missing from
      `parsed` is one whose read or parse throws. */
  datatype Directory = Directory(files: seq<string>, parsed: map<string, Stored>)

  /** Names are unique, and only listed files have contents. */
  predicate Valid(d: Directory) {
    Distinct(d.files) && forall f :: f in d.parsed ==> f in d.files
  }

  // ---------------------------------------------------------------- reading

  /** `Array.isArray(c) ? c : c ? [c] : []`. */
  function CategoryList(c: CategoriesField): (r: seq<string>)
    ensures c.Many? ==> r == c.names
    ensures c.Single? && c.name != "" ==> r == [c.name]
    ensures c.Unset? || c == Single("") ==> r == []
  {
    match c
    case Unset => []
    case Single(name) => if name != "" then [name] else []
    case Many(names) => names
  }

  /** The web form of a stored thumbnail: a truthy path gets a leading `/`
      unless it has one; a falsy one becomes `null`. */
  function WebThumbnail(t: Option<string>): (r: Option<string>)
    ensures r.None? <==> !Truthy(t)
    ensures r.Some? ==> StartsWith(r.value, "/")
    ensures r.Some? ==> r.value == t.value || r.value == "/" + t.value
  {
    if !Truthy(t) then None
    else if StartsWith(t.value, "/") then t
    else Some("/" + t.value)
  }

  /** The post `getPostBySlug` builds from a resolved file. */
  function ReadPost(file: string, st: Stored, now: string): (p: Post)
    ensures p.slug == StripMd(file) && p.content == st.content
    ensures Truthy(st.data.title) ==> p.title == st.data.title.value
    ensures !Truthy(st.data.title) ==> p.title == "Untitled"
    ensures Truthy(st.data.date) ==> p.date == st.data.date.value
    ensures !Truthy(st.data.date) ==> p.date == now
    ensures p.categories == Some(CategoryList(st.data.categories))
    ensures Truthy(st.data.excerpt) ==> p.excerpt == st.data.excerpt
    ensures !Truthy(st.data.excerpt) ==> p.excerpt == Some("")
    ensures p.thumbnail == WebThumbnail(st.data.thumbnail)
  {
    Post(
      StripMd(file),
      OrElse(st.data.title, "Untitled"),
      OrElse(st.data.date, now),
      st.content,
      Some(CategoryList(st.data.categories)),
      Some(OrElse(st.data.excerpt, "")),
      WebThumbnail(st.data.thumbnail))
  }

  /** `getPostBySlug`: resolve the slug against the listing, then read and
      normalise that file. `null` when nothing resolves or the resolved file
      cannot be read or parsed. `now` is the ISO time used for a missing date. */
  function GetPostBySlug(d: Directory, slug: string, decode: Decoder, now: string): (r: Option<Post>)
    requires Resolvable(d.files, slug, decode)
    ensures var found := FindFileNameBySlug(d.files, slug, decode);
      r.Some? <==> found.Some? && found.value in d.parsed
    ensures var found := FindFileNameBySlug(d.files, slug, decode);
      r.Some? ==> r.value == ReadPost(found.value, d.parsed[found.value], now)
    ensures var found := FindFileNameBySlug(d.files, slug, decode);
      r.Some? ==> r.value.slug == StripMd(found.value) && r.value.content == d.parsed[found.value].content
    ensures r.Some? ==> r.value.title != "" && r.value.categories.Some? && r.value.excerpt.Some?
    ensures r.Some? && r.value.thumbnail.Some? ==> StartsWith(r.value.thumbnail.value, "/")
  {
    match FindFileNameBySlug(d.files, slug, decode)
    case None => None
    case Some(file) =>
      if file in d.parsed then Some(ReadPost(file, d.parsed[file], now)) else None
  }

  // ---------------------------------------------------------------- listing

  predicate IsMarkdown(file: string) { EndsWith(file, MdExt) }

  /** `getPostSlugs`: the listed names ending in `.md`, in listing order. */
  function PostFileNames(d: Directory): (r: seq<string>)
    ensures IsSubsequence(r, d.files)
    ensures forall f :: f in r <==> f in d.files && IsMarkdown(f)
  {
    Filter(IsMarkdown, d.files)
  }

  /** Every `.md` name, stripped of its extension, is a slug the resolver can
      take. Only a stem holding `%` can fail this (see `PlainStemResolvable`). */
  predicate ListingResolvable(d: Directory, decode: Decoder) {
    forall f :: f in d.files && IsMarkdown(f) ==> Resolvable(d.files, StripMd(f), decode)
  }

  /** A listed `.md` name without `%` is its own rule-1 answer, so its stem
      can always be looked up. */
  lemma PlainStemResolvable(files: seq<string>, f: string, decode: Decoder)
    requires f in files && IsMarkdown(f) && '%' !in f
    ensures Resolvable(files, StripMd(f), decode)
  {
    var stem := StripMd(f);
    assert stem == f[..|stem|];
    assert DecodeSlug(stem, decode) + MdExt == f;
  }

  /** A listing whose `.md` names hold no `%` is resolvable. */
  lemma PlainListingResolvable(d: Directory, decode: Decoder)
    requires forall f :: f in d.files && IsMarkdown(f) ==> '%' !in f
    ensures ListingResolvable(d, decode)
  {
    forall f | f in d.files && IsMarkdown(f) ensures Resolvable(d.files, StripMd(f), decode) {
      PlainStemResolvable(d.files, f, decode);
    }
  }

  /** `getPostBySlug` of the stem of the name `f`, or `None` when that stem is
      not one the resolver can take. */
  function LookUp(d: Directory, decode: Decoder, now: string, f: string): Option<Post> {
    if Resolvable(d.files, StripMd(f), decode) then GetPostBySlug(d, StripMd(f), decode, now) else None
  }

  /** The names of `names` whose look-up yields a post, in order. */
  function Readable(d: Directory, names: seq<string>, decode: Decoder, now: string): seq<string> {
    Filter(f => LookUp(d, decode, now, f).Some?, names)
  }

  /** `posts[i]` is what the look-up of `names[i]` yields, for every `i`. */
  predicate LookedUp(d: Directory, decode: Decoder, now: string, names: seq<string>, posts: seq<Post>) {
    MapsTo(f => LookUp(d, decode, now, f), names, posts)
  }

  lemma ReadableStep(d: Directory, names: seq<string>, decode: Decoder, now: string)
    requires |names| > 0
    ensures LookUp(d, decode, now, names[0]).None? ==>
      Readable(d, names, decode, now) == Readable(d, names[1..], decode, now)
    ensures LookUp(d, decode, now, names[0]).Some? ==>
      Readable(d, names, decode, now) == [names[0]] + Readable(d, names[1..], decode, now)
  {
  }

  /** The non-null results of `getPostBySlug(name without .md)` over `names`:
      one post for each name whose look-up succeeds, in the order of the
      names. */
  function LookUpAll(d: Directory, names: seq<string>, decode: Decoder, now: string): (r: seq<Post>)
    requires forall f :: f in names ==> Resolvable(d.files, StripMd(f), decode)
    ensures LookedUp(d, decode, now, Readable(d, names, decode, now), r)
  {
    if |names| == 0 then []
    else
      var rest := LookUpAll(d, names[1..], decode, now);
      ReadableStep(d, names, decode, now);
      match LookUp(d, decode, now, names[0])
      case None => rest
      case Some(p) =>
        MapsToCons(f => LookUp(d, decode, now, f), names[0], Readable(d, names[1..], decode, now), p, rest);
        [p] + rest
  }

  /** Every successful look-up is kept, and nothing else is. */
  lemma LookUpAllMembers(d: Directory, names: seq<string>, decode: Decoder, now: string)
    requires forall f :: f in names ==> Resolvable(d.files, StripMd(f), decode)
    ensures forall f :: f in names && LookUp(d, decode, now, f).Some? ==>
      LookUp(d, decode, now, f).value in LookUpAll(d, names, decode, now)
    ensures forall p :: p in LookUpAll(d, names, decode, now) ==>
      exists f :: f in names && LookUp(d, decode, now, f) == Some(p)
  {
    var r := LookUpAll(d, names, decode, now);
    var fs := Readable(d, names, decode, now);
    forall f | f in names && LookUp(d, decode, now, f).Some?
      ensures LookUp(d, decode, now, f).value in r
    {
      var i :| 0 <= i < |fs| && fs[i] == f;
      assert LookUp(d, decode, now, fs[i]) == Some(r[i]);
    }
    forall p | p in r
      ensures exists f :: f in names && LookUp(d, decode, now, f) == Some(p)
    {
      var i :| 0 <= i < |r| && r[i] == p;
      var f := fs[i];
      assert f in fs;
      assert f in names;
      assert LookUp(d, decode, now, f) == Some(p);
    }
  }

  /** Posts ordered by date, latest first, under the date order `dateKey`. */
  ghost predicate NewestFirst(posts: seq<Post>, dateKey: string -> int) {
    forall i, j :: 0 <= i < j < |posts| ==> dateKey(posts[i].date) >= dateKey(posts[j].date)
  }

  /** Insert `p` before the first post that is strictly older. */
  function InsertByDate(p: Post, sorted: seq<Post>, dateKey: string -> int): (r: seq<Post>)
    requires NewestFirst(sorted, dateKey)
    ensures NewestFirst(r, dateKey)
    ensures multiset(r) == multiset(sorted) + multiset{p}
  {
    if |sorted| == 0 then [p]
    else if dateKey(sorted[0].date) < dateKey(p.date) then
      NewestCons(p, sorted, dateKey);
      [p] + sorted
    else
      var rest := InsertByDate(p, sorted[1..], dateKey);
      assert sorted == [sorted[0]] + sorted[1..];
      InsertBehind(sorted[0], p, sorted[1..], rest, dateKey);
      [sorted[0]] + rest
  }

  /** Putting `x` back in front of `tail` with `p` inserted keeps the order
      when `x` is no older than `p`. */
  lemma InsertBehind(x: Post, p: Post, tail: seq<Post>, rest: seq<Post>, dateKey: string -> int)
    requires NewestFirst([x] + tail, dateKey) && NewestFirst(rest, dateKey)
    requires multiset(rest) == multiset(tail) + multiset{p}
    requires dateKey(x.date) >= dateKey(p.date)
    ensures NewestFirst([x] + rest, dateKey)
    ensures multiset([x] + rest) == multiset([x] + tail) + multiset{p}
  {
    forall q | q in rest ensures dateKey(x.date) >= dateKey(q.date) {
      assert q in multiset(rest);
      if q != p {
        assert q in multiset(tail);
        var j :| 0 <= j < |tail| && tail[j] == q;
        var xs := [x] + tail;
        assert xs[0] == x && xs[j + 1] == q;
        assert dateKey(xs[0].date) >= dateKey(xs[j + 1].date);
      }
    }
    NewestCons(x, rest, dateKey);
  }

  /** A post no older than any in a newest-first list can go in front. */
  lemma NewestCons(x: Post, rest: seq<Post>, dateKey: string -> int)
    requires NewestFirst(rest, dateKey)
    requires forall q :: q in rest ==> dateKey(x.date) >= dateKey(q.date)
    ensures NewestFirst([x] + rest, dateKey)
  {
    var r := [x] + rest;
    forall i, j | 0 <= i < j < |r| ensures dateKey(r[i].date) >= dateKey(r[j].date) {
      assert r[j] == rest[j - 1];
      if i > 0 {
        assert r[i] == rest[i - 1];
      }
    }
  }

  /** The `sort` of `getAllPosts`: a permutation ordered latest first. */
  function SortByDate(posts: seq<Post>, dateKey: string -> int): (r: seq<Post>)
    ensures NewestFirst(r, dateKey)
    ensures multiset(r) == multiset(posts)
  {
    if |posts| == 0 then []
    else
      assert posts == [posts[0]] + posts[1..];
      InsertByDate(posts[0], SortByDate(posts[1..], dateKey), dateKey)
  }

  /** Posts of the same date come out in reverse listing order. */
  lemma EqualDatesReversed(a: Post, b: Post)
    ensures SortByDate([a, b], _ => 0) == [b, a]
  {
    assert [a, b][1..] == [b];
  }

  /** `getAllPosts`: look up every `.md` name through `getPostBySlug`, drop the
      nulls and sort latest first. */
  function GetAllPosts(d: Directory, decode: Decoder, now: string, dateKey: string -> int): (r: seq<Post>)
    requires ListingResolvable(d, decode)
    ensures NewestFirst(r, dateKey)
    ensures multiset(r) == multiset(LookUpAll(d, PostFileNames(d), decode, now))
    ensures |r| <= |PostFileNames(d)|
    ensures forall p :: p in r ==>
      exists f :: f in d.files && IsMarkdown(f) && LookUp(d, decode, now, f) == Some(p)
  {
    var names := PostFileNames(d);
    var found := LookUpAll(d, names, decode, now);
    LookUpAllMembers(d, names, decode, now);
    var r := SortByDate(found, dateKey);
    assert forall p :: p in r ==> p in found by {
      forall p | p in r ensures p in found {
        assert p in multiset(r);
      }
    }
    assert |r| == |multiset(r)| == |multiset(found)| == |found|;
    assert |found| == |Readable(d, names, decode, now)| <= |names|;
    r
  }

  /** The posts read straight from each readable `.md` file, in listing order. */
  function ReadEach(d: Directory, names: seq<string>, now: string): seq<Post> {
    if |names| == 0 then []
    else if names[0] in d.parsed then [ReadPost(names[0], d.parsed[names[0]], now)] + ReadEach(d, names[1..], now)
    else ReadEach(d, names[1..], now)
  }

  /** When no `.md` name holds a `%`, the look-up of every name finds that very
      file, so the listing holds each readable post file exactly once. */
  lemma {:induction false} LookUpFindsOwnFile(d: Directory, names: seq<string>, decode: Decoder, now: string)
    requires forall f :: f in names ==> f in d.files && IsMarkdown(f) && '%' !in f
    ensures forall f :: f in names ==> Resolvable(d.files, StripMd(f), decode)
    ensures LookUpAll(d, names, decode, now) == ReadEach(d, names, now)
    decreases |names|
  {
    if |names| > 0 {
      var f := names[0];
      assert f in names;
      var stem := StripMd(f);
      assert stem + MdExt == f;
      assert stem == f[..|stem|];
      ExactNameWins(d.files, stem, decode);
      assert forall g :: g in names[1..] ==> g in names;
      LookUpFindsOwnFile(d, names[1..], decode, now);
    }
    forall f | f in names ensures Resolvable(d.files, StripMd(f), decode) {
      PlainStemResolvable(d.files, f, decode);
    }
  }

  /** `getAllPosts` lists every readable `.md` file exactly once when no name
      holds a `%`. */
  lemma AllPostsAreTheFiles(d: Directory, decode: Decoder, now: string, dateKey: string -> int)
    requires forall f :: f in d.files && IsMarkdown(f) ==> '%' !in f
    ensures ListingResolvable(d, decode)
    ensures multiset(GetAllPosts(d, decode, now, dateKey)) == multiset(ReadEach(d, PostFileNames(d), now))
  {
    PlainListingResolvable(d, decode);
    LookUpFindsOwnFile(d, PostFileNames(d), decode, now);
  }

  /** The `categories` of a post, empty when missing. */
  function CategoriesOf(p: Post): seq<string> {
    if p.categories.Some? then p.categories.value else []
  }

  /** Add to `acc` the names of `names` it does not hold yet, in order. */
  function AddNew(acc: seq<string>, names: seq<string>): (r: seq<string>)
    requires Distinct(acc)
    ensures Distinct(r) && |acc| <= |r| && r[..|acc|] == acc
    ensures forall c :: c in r <==> c in acc || c in names
    decreases |names|
  {
    if |names| == 0 then acc
    else if names[0] in acc then AddNew(acc, names[1..])
    else
      var next := acc + [names[0]];
      var r := AddNew(next, names[1..]);
      assert r[..|acc|] == r[..|next|][..|acc|];
      r
  }

  function CollectCategories(acc: seq<string>, posts: seq<Post>): (r: seq<string>)
    requires Distinct(acc)
    ensures Distinct(r) && |acc| <= |r| && r[..|acc|] == acc
    ensures forall c :: c in r <==> c in acc || exists p :: p in posts && c in CategoriesOf(p)
    decreases |posts|
  {
    if |posts| == 0 then acc
    else
      var next := AddNew(acc, CategoriesOf(posts[0]));
      var r := CollectCategories(next, posts[1..]);
      assert r[..|acc|] == r[..|next|][..|acc|];
      assert forall p :: p in posts <==> p == posts[0] || p in posts[1..];
      r
  }

  /** The `Set` union of `getAllCategories`, in first-seen order: every category
      of every post, each once. */
  function UniqueCategories(posts: seq<Post>): (r: seq<string>)
    ensures Distinct(r)
    ensures forall c :: c in r <==> exists p :: p in posts && c in CategoriesOf(p)
  {
    CollectCategories([], posts)
  }

  /** `getAllCategories`. */
  function GetAllCategories(d: Directory, decode: Decoder, now: string, dateKey: string -> int): (r: seq<string>)
    requires ListingResolvable(d, decode)
    ensures Distinct(r)
    ensures forall c :: c in r <==>
      exists p :: p in GetAllPosts(d, decode, now, dateKey) && c in CategoriesOf(p)
  {
    UniqueCategories(GetAllPosts(d, decode, now, dateKey))
  }

  /** `getPostsByCategory`: `"all"` is every post; any other name keeps, in
      order, the posts that list it. */
  function GetPostsByCategory(d: Directory, category: string, decode: Decoder, now: string, dateKey: string -> int): (r: seq<Post>)
    requires ListingResolvable(d, decode)
    ensures category == AllCategories ==> r == GetAllPosts(d, decode, now, dateKey)
    ensures category != AllCategories ==> IsSubsequence(r, GetAllPosts(d, decode, now, dateKey))
    ensures category != AllCategories ==>
      forall p :: p in r <==> p in GetAllPosts(d, decode, now, dateKey) && category in CategoriesOf(p)
    ensures category != AllCategories ==>
      forall p :: multiset(r)[p] ==
        if category in CategoriesOf(p) then multiset(GetAllPosts(d, decode, now, dateKey))[p] else 0
  {
    if category == AllCategories then GetAllPosts(d, decode, now, dateKey)
    else FilterPostsByCategory(GetAllPosts(d, decode, now, dateKey), category)
  }

  // ---------------------------------------------------------------- writing

  /** The stored form of a thumbnail: one leading `/` removed, and the key left
      out when nothing remains. */
  function StoredThumbnail(t: Option<string>): (r: Option<string>)
    ensures r.Some? ==> r.value != "" && t.Some?
    ensures r.Some? ==> r.value == t.value || "/" + r.value == t.value
    ensures Truthy(t) && !StartsWith(t.value, "/") ==> r == t
    ensures t.None? || t.value == "" || t.value == "/" ==> r.None?
  {
    if !Truthy(t) then None
    else
      var s := if StartsWith(t.value, "/") then t.value[1..] else t.value;
      assert StartsWith(t.value, "/") ==> t.value == "/" + s;
      if s == "" then None else Some(s)
  }

  /** The front matter `savePost` writes for a post. */
  function FrontMatterOf(post: Post): (fm: FrontMatter)
    ensures fm.title == Some(post.title) && fm.date == Some(post.date)
    ensures fm.categories.Many?
    ensures fm.categories.names == if post.categories.Some? then post.categories.value else []
    ensures fm.excerpt.Some? && (fm.excerpt.value == if Truthy(post.excerpt) then post.excerpt.value else "")
    ensures fm.thumbnail.Some? <==> Truthy(post.thumbnail) && post.thumbnail.value != "/"
    ensures fm.thumbnail.Some? && StartsWith(post.thumbnail.value, "/") ==> "/" + fm.thumbnail.value == post.thumbnail.value
    ensures fm.thumbnail.Some? && !StartsWith(post.thumbnail.value, "/") ==> fm.thumbnail.value == post.thumbnail.value
  {
    FrontMatter(
      Some(post.title),
      Some(post.date),
      Many(if post.categories.Some? then post.categories.value else []),
      Some(OrElse(post.excerpt, "")),
      StoredThumbnail(post.thumbnail))
  }

  /** The file name of a post. */
  function FileNameOf(slug: string): string { slug + MdExt }

  /** `postsDirectory`: `content` under the working directory `cwd`, an
      absolute path. */
  function PostsDirectory(cwd: string): (r: seq<string>)
    ensures Normal(r) && |r| >= 1 && r[|r| - 1] == "content"
  {
    Join(Join([], cwd), "content")
  }

  /** Where `savePost` writes: the name of the file inside the posts directory
      that `path.join(postsDirectory, slug + ".md")` denotes, or `None` when
      that path lies in a sub-directory or outside the posts directory. A slug
      without `/` names the file `slug.md`. */
  function WrittenName(cwd: string, slug: string): (r: Option<string>)
    ensures var dir := PostsDirectory(cwd);
      r.Some? <==> exists n :: Join(dir, FileNameOf(slug)) == dir + [n]
    ensures r.Some? ==> Join(PostsDirectory(cwd), FileNameOf(slug)) == PostsDirectory(cwd) + [r.value]
    ensures r.Some? ==> Plain(r.value)
    ensures '/' !in slug ==> r == Some(FileNameOf(slug))
  {
    var dir := PostsDirectory(cwd);
    var target := Join(dir, FileNameOf(slug));
    assert '/' !in slug ==> Plain(FileNameOf(slug)) by {
      if '/' !in slug {
        FlatNamePlain(slug);
      }
    }
    if |target| == |dir| + 1 && target == dir + [target[|dir|]] then Some(target[|dir|])
    else None
  }

  /** `slug.md` is a plain segment when the slug has no `/`. */
  lemma FlatNamePlain(slug: string)
    requires '/' !in slug
    ensures Plain(FileNameOf(slug))
  {
    var name := FileNameOf(slug);
    assert name[|name| - 1] == 'd';
    forall i | 0 <= i < |name| ensures name[i] != '/' {
      if i < |slug| {
        assert name[i] == slug[i];
      } else {
        assert name[i] == MdExt[i - |slug|];
      }
    }
  }

  /** `savePost`: write `path.join(postsDirectory, slug + ".md")`. `writeOk` is
      whether the write succeeds; a failing write returns `false` and leaves
      the directory as it was. A write that lands directly in the posts
      directory replaces the file of that name and touches no other; a new
      name is taken to appear at the end of the listing. A write anywhere else
      (a sub-directory, or beside the posts directory) leaves the listing as
      it was. */
  function SavePost(d: Directory, post: Post, cwd: string, writeOk: bool): (r: (bool, Directory))
    ensures r.0 == writeOk
    ensures !writeOk || WrittenName(cwd, post.slug).None? ==> r.1 == d
    ensures writeOk && WrittenName(cwd, post.slug).Some? ==>
      var name := WrittenName(cwd, post.slug).value;
      name in r.1.files && name in r.1.parsed && r.1.parsed[name] == Stored(FrontMatterOf(post), post.content)
    ensures forall f :: WrittenName(cwd, post.slug) != Some(f) ==>
      (f in r.1.files <==> f in d.files) && (f in r.1.parsed <==> f in d.parsed)
      && (f in d.parsed ==> r.1.parsed[f] == d.parsed[f])
    ensures Valid(d) ==> Valid(r.1)
  {
    if !writeOk then (false, d)
    else
      match WrittenName(cwd, post.slug)
      case None => (true, d)
      case Some(name) =>
        var files := if name in d.files then d.files else d.files + [name];
        (true, Directory(files, d.parsed[name := Stored(FrontMatterOf(post), post.content)]))
  }

  /** The segments of a post file name whose slug starts with a slash-free
      segment. */
  lemma SlugSegmentsCons(a: string, y: string)
    requires '/' !in a
    ensures Segments(FileNameOf(a + "/" + y)) == [a] + Segments(FileNameOf(y))
  {
    AppendAssoc(a + "/", y, MdExt);
    SegmentsCons(a, FileNameOf(y));
  }

  /** A slash-free slug is one segment. */
  lemma FlatSegments(b: string)
    requires '/' !in b
    ensures Segments(FileNameOf(b)) == [FileNameOf(b)]
  {
    FlatNamePlain(b);
  }

  /** A `..` segment cancels the segment before it: the slug `a/../b` writes
      `b.md`, overwriting whatever post has that name. */
  lemma ParentSegmentCancels(cwd: string, a: string, b: string)
    requires Plain(a) && '/' !in b
    ensures WrittenName(cwd, a + "/" + ".." + "/" + b) == Some(FileNameOf(b))
  {
    var dir := PostsDirectory(cwd);
    var name := FileNameOf(b);
    FlatNamePlain(b);
    var x := a + "/";
    AppendAssoc(x, "..", "/");
    AppendAssoc(x, ".." + "/", b);
    assert a + "/" + ".." + "/" + b == a + "/" + (".." + "/" + b);
    SlugSegmentsCons(a, ".." + "/" + b);
    SlugSegmentsCons("..", b);
    FlatSegments(b);
    var segs := [a, "..", name];
    assert Segments(FileNameOf(a + "/" + ".." + "/" + b)) == segs;
    assert segs[1..] == ["..", name] && segs[1..][1..] == [name];
    assert Resolve(dir, segs) == Resolve(dir + [a], ["..", name]);
    assert (dir + [a])[..|dir|] == dir;
    assert Resolve(dir + [a], ["..", name]) == Resolve(dir, [name]);
    assert Resolve(dir, [name]) == dir + [name];
  }

  /** The slug `a/b` writes `b.md` in the sub-directory `a`, which the listing
      does not show. */
  lemma NestedSlugUnlisted(cwd: string, a: string, b: string)
    requires Plain(a) && '/' !in b
    ensures WrittenName(cwd, a + "/" + b) == None
  {
    var dir := PostsDirectory(cwd);
    var name := FileNameOf(b);
    FlatNamePlain(b);
    SlugSegmentsCons(a, b);
    FlatSegments(b);
    var segs := [a, name];
    assert Segments(FileNameOf(a + "/" + b)) == segs;
    assert segs[1..] == [name];
    assert Resolve(dir, segs) == Resolve(dir + [a], [name]);
    assert Resolve(dir + [a], [name]) == dir + [a] + [name];
  }

  /** The slug `../b` writes `b.md` beside the posts directory, outside the
      listing. */
  lemma EscapingSlugUnlisted(cwd: string, b: string)
    requires '/' !in b
    ensures WrittenName(cwd, ".." + "/" + b) == None
  {
    var dir := PostsDirectory(cwd);
    var name := FileNameOf(b);
    FlatNamePlain(b);
    SlugSegmentsCons("..", b);
    FlatSegments(b);
    var segs := ["..", name];
    assert Segments(FileNameOf(".." + "/" + b)) == segs;
    assert segs[1..] == [name];
    var up := dir[..|dir| - 1];
    assert Resolve(dir, segs) == Resolve(up, [name]);
    assert Resolve(up, [name]) == up + [name];
  }

  /** What `getPostBySlug` returns for a post that `savePost` wrote: the fields
      come back, an empty title or date gets its default, missing categories
      and excerpt come back empty, and the thumbnail in web form. */
  function ReadBack(post: Post, now: string): Post {
    Post(
      post.slug,
      if post.title != "" then post.title else "Untitled",
      if post.date != "" then post.date else now,
      post.content,
      Some(if post.categories.Some? then post.categories.value else []),
      Some(OrElse(post.excerpt, "")),
      WebThumbnail(StoredThumbnail(post.thumbnail)))
  }

  /** Saving a post and then looking up its slug reads the post back, provided
      the slug has no `%` (it would be decoded) and no `/` (the file would land
      elsewhere, see `ParentSegmentCancels`, `NestedSlugUnlisted` and
      `EscapingSlugUnlisted`). */
  lemma SaveThenGet(d: Directory, post: Post, cwd: string, decode: Decoder, now: string)
    requires Valid(d)
    requires '%' !in post.slug && '/' !in post.slug
    ensures FileNameOf(post.slug) in SavePost(d, post, cwd, true).1.files
    ensures GetPostBySlug(SavePost(d, post, cwd, true).1, post.slug, decode, now) == Some(ReadBack(post, now))
  {
    var d' := SavePost(d, post, cwd, true).1;
    var name := FileNameOf(post.slug);
    ExactNameWins(d'.files, post.slug, decode);
    assert d'.parsed[name] == Stored(FrontMatterOf(post), post.content);
    ReadWritten(post, now);
  }

  /** Reading back the file `savePost` wrote for `post` gives `ReadBack`. */
  lemma ReadWritten(post: Post, now: string)
    ensures ReadPost(FileNameOf(post.slug), Stored(FrontMatterOf(post), post.content), now) == ReadBack(post, now)
  {
    assert StripMd(FileNameOf(post.slug)) == post.slug;
  }

  /** A thumbnail without a leading `/` is stored as given and reads back with
      one; one with a single leading `/` reads back unchanged. */
  lemma ThumbnailRoundTrip(t: string)
    requires t != "" && t[0] != '/'
    ensures WebThumbnail(StoredThumbnail(Some(t))) == Some("/" + t)
    ensures WebThumbnail(StoredThumbnail(Some("/" + t))) == Some("/" + t)
  {
    assert !StartsWith(t, "/");
    assert ("/" + t)[1..] == t;
  }

  // ---------------------------------------------------------------- deleting

  /** The directory without `file`: gone from the listing and the contents,
      everything else as it was. */
  function Remove(d: Directory, file: string): (r: Directory)
    ensures file !in r.files && file !in r.parsed
    ensures forall f :: f != file ==> (f in r.files <==> f in d.files) && (f in r.parsed <==> f in d.parsed)
    ensures forall f :: f in r.parsed ==> r.parsed[f] == d.parsed[f]
    ensures Valid(d) ==> Valid(r)
  {
    var files := Filter(f => f != file, d.files);
    assert Valid(d) ==> Distinct(files) by {
      if Valid(d) {
        FilterDistinct(f => f != file, d.files);
      }
    }
    Directory(files, d.parsed - {file})
  }

  /** `deletePost`: resolve the slug as `getPostBySlug` does and unlink that
      file. `false` when nothing resolves or the unlink (`unlinkOk`) fails, and
      then the directory is unchanged; on success exactly the resolved file is
      gone. */
  function DeletePost(d: Directory, slug: string, decode: Decoder, unlinkOk: bool): (r: (bool, Directory))
    requires Resolvable(d.files, slug, decode)
    ensures r.0 <==> FindFileNameBySlug(d.files, slug, decode).Some? && unlinkOk
    ensures !r.0 ==> r.1 == d
    ensures r.0 ==> r.1 == Remove(d, FindFileNameBySlug(d.files, slug, decode).value)
    ensures Valid(d) ==> Valid(r.1)
  {
    match FindFileNameBySlug(d.files, slug, decode)
    case None => (false, d)
    case Some(file) =>
      if !unlinkOk then (false, d) else (true, Remove(d, file))
  }

  /** A delete with a working unlink removes the resolved file. */
  lemma DeleteResolved(d: Directory, slug: string, decode: Decoder, file: string)
    requires RegexSafe(BaseOf(slug, decode))
    requires FindFileNameBySlug(d.files, slug, decode) == Some(file)
    ensures DeletePost(d, slug, decode, true) == (true, Remove(d, file))
  {
  }

  /** Removing one of two listed files leaves the other listed. */
  lemma OtherFileRemains(d: Directory, f1: string, f2: string)
    requires d.files == [f1, f2] && f1 != f2
    ensures f2 in Remove(d, f1).files
  {
    assert f2 in d.files;
  }

  /** A delete succeeds whenever some listed name contains the base slug. */
  lemma DeleteFindsBase(d: Directory, slug: string, decode: Decoder, file: string)
    requires RegexSafe(BaseOf(slug, decode))
    requires file in d.files && StartsWith(file, BaseOf(slug, decode))
    ensures DeletePost(d, slug, decode, true).0
  {
    StartsWithContains(file, BaseOf(slug, decode));
  }

  lemma StampedNamesDiffer(base: string, stamp1: string, stamp2: string)
    requires stamp1 != stamp2
    ensures base + "-" + stamp1 + MdExt != base + "-" + stamp2 + MdExt
  {
    var f1 := base + "-" + stamp1 + MdExt;
    var f2 := base + "-" + stamp2 + MdExt;
    assert f1[|base| + 1..|f1| - 3] == stamp1;
    assert f2[|base| + 1..|f2| - 3] == stamp2;
  }

  /** A timestamped slug has a `%` only where its base has one. */
  lemma StampedSlugPlain(base: string, stamp: string)
    requires '%' !in base && AllDigits(stamp)
    ensures '%' !in base + "-" + stamp
  {
    var slug := base + "-" + stamp;
    forall i | 0 <= i < |slug| ensures slug[i] != '%' {
      if i > |base| {
        assert slug[i] == stamp[i - |base| - 1];
      } else if i < |base| {
        assert slug[i] == base[i];
      }
    }
  }

  /** Deleting is not idempotent: with `base-<stamp1>.md` and `base-<stamp2>.md`
      listed, deleting the slug `base-<stamp1>` removes the first file, and
      deleting the same slug again succeeds once more, on the second file, since
      the lookup falls back to the base slug. */
  lemma DeleteTwiceCanSucceed(base: string, stamp1: string, stamp2: string, decode: Decoder)
    requires RegexSafe(base) && '%' !in base
    requires |stamp1| >= 10 && AllDigits(stamp1) && stamp1 != stamp2
    ensures RegexSafe(BaseOf(base + "-" + stamp1, decode))
    ensures var d := Directory([base + "-" + stamp1 + MdExt, base + "-" + stamp2 + MdExt], map[]);
      var first := DeletePost(d, base + "-" + stamp1, decode, true);
      && first.0
      && base + "-" + stamp1 + MdExt !in first.1.files
      && DeletePost(first.1, base + "-" + stamp1, decode, true).0
  {
    var slug := base + "-" + stamp1;
    var f1 := slug + MdExt;
    var f2 := base + "-" + stamp2 + MdExt;
    StampedSlugPlain(base, stamp1);
    assert BaseOf(slug, decode) == base by {
      BaseOfStamped(base, stamp1);
    }
    assert f1 != f2 by {
      StampedNamesDiffer(base, stamp1, stamp2);
    }
    var d := Directory([f1, f2], map[]);
    ExactNameWins(d.files, slug, decode);
    assert DecodeSlug(slug, decode) + MdExt == f1;
    DeleteResolved(d, slug, decode, f1);
    var first := DeletePost(d, slug, decode, true);
    OtherFileRemains(d, f1, f2);
    assert StartsWith(f2, base);
    DeleteFindsBase(first.1, slug, decode, f2);
  }

  // ---------------------------------------------------------------- uploads

  /** `s.replace(/\s+/g, "-")`: every run of white space becomes one hyphen. */
  function DashWhitespace(s: string): (r: string)
    ensures |r| <= |s|
    ensures forall i :: 0 <= i < |r| ==> !IsJsSpace(r[i])
    ensures (forall i :: 0 <= i < |s| ==> !IsJsSpace(s[i])) ==> r == s
    ensures |s| > 0 ==> |r| > 0
    decreases |s|
  {
    if |s| == 0 then ""
    else if IsJsSpace(s[0]) then "-" + DashWhitespace(TrimStart(s))
    else [s[0]] + DashWhitespace(s[1..])
  }

  /** A string ending in a non-space character keeps its trimmed form in
      front of whatever follows it. */
  lemma {:induction false} TrimStartAppend(a: string, b: string)
    requires |a| > 0 && !IsJsSpace(a[|a| - 1])
    ensures TrimStart(a + b) == TrimStart(a) + b
    decreases |a|
  {
    if IsJsSpace(a[0]) {
      assert (a + b)[1..] == a[1..] + b;
      TrimStartAppend(a[1..], b);
    }
  }

  /** Trimming skips a run of white space. */
  lemma {:induction false} TrimStartPast(w: string, b: string)
    requires AllSpace(w)
    requires |b| == 0 || !IsJsSpace(b[0])
    ensures TrimStart(w + b) == b
    decreases |w|
  {
    if |w| > 0 {
      assert (w + b)[1..] == w[1..] + b;
      TrimStartPast(w[1..], b);
    } else {
      assert w + b == b;
    }
  }

  /** Dashing splits after a non-space character: the two sides are dashed
      independently. */
  lemma {:induction false} DashAppend(a: string, b: string)
    requires |a| > 0 && !IsJsSpace(a[|a| - 1])
    ensures DashWhitespace(a + b) == DashWhitespace(a) + DashWhitespace(b)
    decreases |a|
  {
    var s := a + b;
    assert s[0] == a[0];
    if IsJsSpace(a[0]) {
      var t := TrimStart(a);
      TrimStartAppend(a, b);
      assert |t| > 0 && t[|t| - 1] == a[|a| - 1];
      assert |t| < |a|;
      assert DashWhitespace(s) == "-" + DashWhitespace(t + b);
      assert DashWhitespace(a) == "-" + DashWhitespace(t);
      DashAppend(t, b);
      AppendAssoc("-", DashWhitespace(t), DashWhitespace(b));
    } else {
      assert DashWhitespace(s) == [a[0]] + DashWhitespace(s[1..]);
      assert DashWhitespace(a) == [a[0]] + DashWhitespace(a[1..]);
      if |a| == 1 {
        assert s[1..] == b && a[1..] == "";
        assert DashWhitespace(a) == [a[0]];
      } else {
        assert s[1..] == a[1..] + b;
        DashAppend(a[1..], b);
        AppendAssoc([a[0]], DashWhitespace(a[1..]), DashWhitespace(b));
      }
    }
  }

  /** A run of white space before a non-space character (or the end) becomes
      one hyphen. */
  lemma DashRun(w: string, b: string)
    requires |w| > 0 && AllSpace(w)
    requires |b| == 0 || !IsJsSpace(b[0])
    ensures DashWhitespace(w + b) == "-" + DashWhitespace(b)
  {
    TrimStartPast(w, b);
  }

  /** `replace(/\s+/g, "-")` on `a + w + b`, where `w` is a maximal run of white
      space: the text on either side is dashed on its own, and the run is one
      hyphen. With the identity on space-free text this determines the
      function. */
  lemma DashAroundRun(a: string, w: string, b: string)
    requires |a| == 0 || !IsJsSpace(a[|a| - 1])
    requires |w| > 0 && AllSpace(w)
    requires |b| == 0 || !IsJsSpace(b[0])
    ensures DashWhitespace(a + w + b) == DashWhitespace(a) + "-" + DashWhitespace(b)
  {
    DashRun(w, b);
    AppendAssoc(a, w, b);
    if |a| == 0 {
      assert a + w + b == w + b;
      assert DashWhitespace(a) + "-" == "-";
    } else {
      DashBeforeDashed(a, w + b, DashWhitespace(b));
    }
  }

  predicate NotHyphen(c: char) { c != '-' }

  /** A character that is neither white space nor a hyphen. */
  predicate Solid(c: char) { !IsJsSpace(c) && c != '-' }

  /** Leading white space holds no solid character. */
  lemma {:induction false} SolidPastTrim(s: string)
    ensures Filter(Solid, TrimStart(s)) == Filter(Solid, s)
    decreases |s|
  {
    if |s| > 0 && IsJsSpace(s[0]) {
      SolidPastTrim(s[1..]);
    }
  }

  /** Dashing keeps the solid characters, in order, and adds only hyphens. */
  lemma {:induction false} DashKeepsSolid(s: string)
    ensures Filter(NotHyphen, DashWhitespace(s)) == Filter(Solid, s)
    decreases |s|
  {
    if |s| > 0 {
      var r := DashWhitespace(s);
      if IsJsSpace(s[0]) {
        var t := TrimStart(s);
        assert t == TrimStart(s[1..]);
        DashKeepsSolid(t);
        SolidPastTrim(s);
        assert r == "-" + DashWhitespace(t) && r[0] == '-' && r[1..] == DashWhitespace(t);
      } else {
        DashKeepsSolid(s[1..]);
        assert r == [s[0]] + DashWhitespace(s[1..]) && r[0] == s[0] && r[1..] == DashWhitespace(s[1..]);
      }
    }
  }

  /** A string ending in a non-space character keeps its dashed form in front
      of text whose dashed form is a hyphen followed by `rest`. */
  lemma DashBeforeDashed(a: string, wb: string, rest: string)
    requires |a| > 0 && !IsJsSpace(a[|a| - 1])
    requires DashWhitespace(wb) == "-" + rest
    ensures DashWhitespace(a + wb) == DashWhitespace(a) + "-" + rest
  {
    DashAppend(a, wb);
    AppendAssoc(DashWhitespace(a), "-", rest);
  }

  /** White space at the front of a lower-cased string is the lower-cased
      white space at the front. */
  lemma {:induction false} TrimStartLower(s: string)
    ensures TrimStart(Lower(s)) == Lower(TrimStart(s))
    decreases |s|
  {
    if |s| > 0 {
      var l := Lower(s);
      LowerKeepsSpace(s[0]);
      if IsJsSpace(s[0]) {
        assert l[1..] == Lower(s[1..]);
        TrimStartLower(s[1..]);
      }
    }
  }

  /** Lower-casing leaves white space alone and makes none. */
  lemma LowerKeepsSpace(c: char)
    ensures IsJsSpace(LowerChar(c)) == IsJsSpace(c)
    ensures IsJsSpace(c) ==> LowerChar(c) == c
  {
  }

  /** Dashing white space and lower-casing commute. */
  lemma {:induction false} DashLower(s: string)
    ensures DashWhitespace(Lower(s)) == Lower(DashWhitespace(s))
    decreases |s|
  {
    if |s| > 0 {
      var l := Lower(s);
      LowerKeepsSpace(s[0]);
      if IsJsSpace(s[0]) {
        var t := TrimStart(s);
        calc {
          DashWhitespace(l);
          "-" + DashWhitespace(TrimStart(l));
          { TrimStartLower(s); }
          "-" + DashWhitespace(Lower(t));
          { DashLower(t); }
          "-" + Lower(DashWhitespace(t));
          { LowerAppend("-", DashWhitespace(t)); }
          Lower("-" + DashWhitespace(t));
        }
      } else {
        calc {
          DashWhitespace(l);
          [l[0]] + DashWhitespace(l[1..]);
          { assert l[1..] == Lower(s[1..]); DashLower(s[1..]); }
          [l[0]] + Lower(DashWhitespace(s[1..]));
          { LowerAppend([s[0]], DashWhitespace(s[1..])); }
          Lower([s[0]] + DashWhitespace(s[1..]));
        }
      }
    }
  }

  /** Lower-casing twice is lower-casing once. */
  lemma LowerIdempotent(s: string)
    ensures Lower(Lower(s)) == Lower(s)
  {
  }

  /** The file-name part of an upload name: white-space runs dashed, then
      lower-cased. It holds no white space and no capital letter. */
  function UploadTail(name: string): (r: string)
    ensures forall i :: 0 <= i < |r| ==> !IsJsSpace(r[i]) && !IsAsciiUpper(r[i])
  {
    Lower(DashWhitespace(name))
  }

  /** The stored name of an uploaded image taken at millisecond `now`: its
      decimal timestamp, a hyphen, and the file name's tail. */
  function UploadName(now: nat, name: string): (r: string)
    ensures StartsWith(r, NatToString(now) + "-")
    ensures r[|NatToString(now)| + 1..] == UploadTail(name)
  {
    NatToString(now) + "-" + UploadTail(name)
  }

  /** `saveImage`: the web path `uploads/<name>` of the stored image, or `null`
      when the write (`writeOk`) fails. The image bytes are not modelled. */
  function SaveImage(now: nat, name: string, writeOk: bool): (r: Option<string>)
    ensures r.Some? <==> writeOk
    ensures r.Some? ==> StartsWith(r.value, "uploads/") && r.value[8..] == UploadName(now, name)
    ensures r.Some? ==> !StartsWith(r.value, "/")
  {
    if writeOk then
      var path := "uploads/" + UploadName(now, name);
      assert path[0] == 'u';
      Some(path)
    else None
  }

  /** The digits before the first hyphen of an upload name are its timestamp. */
  lemma UploadStampReadBack(now: nat, name: string)
    ensures var r := UploadName(now, name);
      exists k :: 0 < k < |r| && r[k] == '-' && AllDigits(r[..k]) && StringToNat(r[..k]) == now
  {
    var r := UploadName(now, name);
    var k := |NatToString(now)|;
    assert r[..k] == NatToString(now);
    NatToStringRoundTrip(now);
  }

  /** Uploads at different milliseconds never share a name, whatever the file
      names. */
  lemma UploadNamesDistinct(now1: nat, name1: string, now2: nat, name2: string)
    requires now1 != now2
    ensures UploadName(now1, name1) != UploadName(now2, name2)
  {
    var a := NatToString(now1);
    var b := NatToString(now2);
    var r1 := UploadName(now1, name1);
    var r2 := UploadName(now2, name2);
    if r1 == r2 {
      assert r1[..|a|] == a && r1[|a|] == '-';
      assert r2[..|b|] == b && r2[|b|] == '-';
      if |a| == |b| {
        NatToStringInjective(now1, now2);
      }
    }
  }

  /** Two uploads in the same millisecond whose names differ only in letter
      case get the same name, so the second overwrites the first. */
  lemma UploadIgnoresCase(now: nat, name: string)
    ensures UploadName(now, Lower(name)) == UploadName(now, name)
  {
    DashLower(name);
    LowerIdempotent(DashWhitespace(name));
  }

  /** Likewise for names that differ only in white space against a hyphen. */
  lemma UploadDashesWhitespace(now: nat, name: string)
    ensures UploadName(now, DashWhitespace(name)) == UploadName(now, name)
  {
  }
}
