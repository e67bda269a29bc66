/** The client-side helpers of `src/lib/posts.ts` that work on already fetched
    posts: the category filter and the preview text. (`generateSlug` of the
    same file is `SlugGen.GenerateSlug`.) */
module ClientPosts {
  import opened Text
  import opened Seqs
  import opened PostTypes

  /** The category name that stands for "no filtering". */
  const AllCategories := "all"

  /** `filterPostsByCategory`: `"all"` returns the list as it is; any other name
      keeps, in order, exactly the posts whose categories contain it
      (case-sensitively). Posts without categories are dropped. */
  function FilterPostsByCategory(posts: seq<Post>, category: string): (r: seq<Post>)
    ensures category == AllCategories ==> r == posts
    ensures category != AllCategories ==> IsSubsequence(r, posts)
    ensures category != AllCategories ==>
      forall p :: p in r <==> p in posts && HasCategory(p, category)
    ensures category != AllCategories ==>
      forall p :: multiset(r)[p] == if HasCategory(p, category) then multiset(posts)[p] else 0
  {
    if category == AllCategories then posts
    else Filter(p => HasCategory(p, category), posts)
  }

  /** The preview length used when none is given. */
  const DefaultPreviewLength := 150

  /** `formatPostPreview`: `content.substring(0, length) + "..."`. `substring`
      clamps a negative length to 0 and a length past the end to the end. */
  function FormatPostPreview(content: string, length: int): (r: string)
    ensures var n := if length < 0 then 0 else if length > |content| then |content| else length;
      |r| == n + 3 && r[..n] == content[..n] && r[n..] == "..."
    ensures length >= 0 ==> |r| <= length + 3
    ensures EndsWith(r, "...")
  {
    var n := if length < 0 then 0 else if length > |content| then |content| else length;
    content[..n] + "..."
  }

  /** Content no longer than the default length is shown whole. */
  lemma ShortContentShownWhole(content: string)
    requires |content| <= DefaultPreviewLength
    ensures FormatPostPreview(content, DefaultPreviewLength) == content + "..."
  {
    var r := FormatPostPreview(content, DefaultPreviewLength);
    assert r[..|content|] == content;
  }

  /** A longer preview extends a shorter one: the text before the ellipsis
      grows by the characters that follow. */
  lemma PreviewExtends(content: string, m: int, n: int)
    requires 0 <= m <= n <= |content|
    ensures var short := FormatPostPreview(content, m);
      var long := FormatPostPreview(content, n);
      long[..m] == short[..m] && long[m..n] == content[m..n]
  {
  }
}
