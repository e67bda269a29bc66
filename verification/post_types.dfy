/** The post record shared by the server, the API and the client components
    (`src/types/index.ts`). */
module PostTypes {
  import opened Text

  /** A post; the optional fields may be missing on input, and `getPostBySlug`
      always fills `categories` and `excerpt`. */
  datatype Post = Post(
    slug: string,
    title: string,
    date: string,
    content: string,
    categories: Option<seq<string>>,
    excerpt: Option<string>,
    thumbnail: Option<string>)

  /** `post.categories && post.categories.includes(category)`. */
  predicate HasCategory(p: Post, category: string) {
    p.categories.Some? && category in p.categories.value
  }

  /** JavaScript truthiness of an optional string: present and non-empty. */
  predicate Truthy(s: Option<string>) {
    s.Some? && s.value != ""
  }

  /** `s || fallback` for an optional string. */
  function OrElse(s: Option<string>, fallback: string): (r: string)
    ensures Truthy(s) ==> r == s.value
    ensures !Truthy(s) ==> r == fallback
  {
    if Truthy(s) then s.value else fallback
  }
}
