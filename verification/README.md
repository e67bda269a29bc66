# A Dafny model of the munhwas1140 blog core

The blog keeps its posts as markdown files in the `content` directory under its working directory. Each file
has a YAML front matter. The model covers these parts:

- **The server-side post store** (`src/lib/server/posts.ts`). This covers:
  - slug decoding and base-slug extraction;
  - the five-rule file resolver `findFileNameBySlug`;
  - reading, listing and filtering posts and their categories;
  - saving and deleting a post;
  - the upload file name.
- **The client helpers** of `src/lib/posts.ts`.
- **The `POST /api/posts` handler.**
- **Three UI pieces, each with its older copy:**
  - the submit path of the post editor;
  - the category tag editor;
  - the paginated post list.
- **The path finder of the cube animation** in `src/app/three/page.tsx`.

The directory is a listing, `seq<string>`, in `readdir` order, plus a map from file name to its parsed front matter and body. The listing's order matters: every resolver rule returns the first listed file it accepts. Some inputs become parameters of the model:

- the clock: milliseconds and an ISO string;
- `decodeURIComponent`, as a partial function;
- the date order of posts, as a key function;
- the success of each file write or unlink;
- the random rolls.

Modules, one per concern:

| module | file | models |
|---|---|---|
| `Text` | text.dfy | ASCII letter case, JavaScript `trim` and `\s`, prefixes and substrings |
| `Seqs` | seqs.dfy | order-preserving filter, distinctness, subsequences, element-wise maps |
| `NodePath` | node_path.dfy | the POSIX `path.join` that places a saved post: split at `/`, drop empty and `.` segments, let `..` cancel the segment before it |
| `Decimal` | decimal.dfy | decimal rendering of timestamps and its inverse |
| `SlugCodec` | slug_codec.dfy | `decodeSlug`, `getBaseSlug` |
| `SlugGen` | slug_gen.dfy | the replace / collapse / strip sanitiser behind `generateSlug` and `generateSafeSlug` |
| `Resolver` | resolver.dfy | `findFileNameBySlug` |
| `PostTypes` | post_types.dfy | the `Post` record |
| `ClientPosts` | client_posts.dfy | `filterPostsByCategory`, `formatPostPreview` |
| `PostStore` | post_store.dfy | `getPostBySlug`, `getAllPosts`, `getAllCategories`, `getPostsByCategory`, `savePost`, `deletePost`, `saveImage` |
| `PostsRoute` | posts_route.dfy | `POST /api/posts` |
| `WriteForm` | write_form.dfy | `generateSafeSlug`, `handleSubmit` |
| `CategoryInput` | category_input.dfy | `addCategory`, `removeCategory`, `handleKeyDown` |
| `Pagination` | pagination.dfy | `parseInt` of the page parameter, page count and slice, redirect, `URLSearchParams`, page links, navigation |
| `Cube` | cube.dfy | `edges`, `edgeConnections`, `isDirectlyConnected`, `findPathAlongEdges`, the next-corner draw |

## Model

| member | source | states |
|---|---|---|
| SlugCodec.DecodeSlug | src/lib/server/posts.ts:30-41 | a slug without `%` comes back unchanged; a slug with `%` that the decoder accepts comes back decoded; a failed decode gives back the raw slug instead of an error; a changed result is always the decoder's output for a slug with `%` |
| SlugCodec.DecodeSlugSettles | src/lib/server/posts.ts:30-41 | a decoded slug without `%` is left alone when decoded again |
| SlugCodec.GetBaseSlug | src/lib/server/posts.ts:44-51 | the result is a prefix of the input; it drops exactly a final `-` plus ten or more ASCII digits, and returns any other string unchanged |
| SlugCodec.StampUnique | src/lib/server/posts.ts:46 | a string has at most one position where a final timestamp suffix can start |
| SlugCodec.BaseOfStamped | src/lib/server/posts.ts:44-51 | appending `-` and ten or more digits to any base and then taking the base slug gives the base back |
| SlugCodec.BaseSlugStripsOnce | src/lib/server/posts.ts:44-51 | the base slug is not idempotent: `a-1234567890-1234567890` loses only its last stamp |
| SlugGen.Sanitise | src/lib/posts.ts:25-29 | the result holds only allowed characters and `-`, has no `--`, no hyphen at either end, and keeps exactly the allowed characters of the input in order |
| SlugGen.SanitiseClean | src/lib/posts.ts:25-29 | the sanitiser leaves a clean string unchanged |
| SlugGen.GenerateSlug | src/lib/posts.ts:24-30 | the slug holds only `a-z`, `0-9`, Hangul syllables and single inner hyphens; it keeps every such character of the lower-cased title, in order |
| SlugGen.GenerateSlugIdempotent | src/lib/posts.ts:24-30 | slugging a slug changes nothing |
| SlugGen.CollapseFacts | src/lib/posts.ts:28 | the collapse leaves no `--`, is no longer than its input and empty only with it, keeps the first and last character, adds no character, and leaves text without `--` unchanged |
| SlugGen.CollapseAppend | src/lib/posts.ts:28 | collapsing works piece by piece across a boundary that does not fall inside a run of hyphens |
| SlugGen.SanitiseDropsLeading | src/lib/posts.ts:25-29 | text holding no allowed character vanishes in front of anything: the result is that of the rest alone |
| SlugGen.SanitiseDropsTrailing | src/lib/posts.ts:25-29 | text holding no allowed character vanishes behind anything |
| SlugGen.SanitiseAroundRun | src/lib/posts.ts:25-29 | a run of disallowed characters between two allowed characters becomes exactly one `-`, and each side is sanitised on its own |
| SlugGen.SanitiseSplits | src/lib/posts.ts:25-29 | a disallowed character between two texts that each hold an allowed character becomes exactly one `-` between the two sanitised texts, so `a b` gives `a-b` and never `ab` |
| SlugGen.GenerateSlugSplits | src/lib/posts.ts:24-30 | a character that lower-cases outside `[a-z0-9가-힣]`, between two titles that each have something to keep, becomes exactly one `-` between their two slugs |
| NodePath.Segments | src/lib/server/posts.ts:264 | the pieces between slashes: at least one, none holding `/`, and a slash-free path is one piece |
| NodePath.SegmentsRoundTrip | src/lib/server/posts.ts:264 | joining the pieces with `/` gives the path back |
| NodePath.SegmentsCons | src/lib/server/posts.ts:264 | a slash-free head followed by `/` splits off as the first piece |
| NodePath.Step | src/lib/server/posts.ts:264 | normalisation keeps a path normal; a plain segment is appended and `..` drops the last segment, staying at the root |
| NodePath.Resolve | src/lib/server/posts.ts:264 | normalising slash-free segments against a normal directory gives a normal path |
| NodePath.ResolvePlain | src/lib/server/posts.ts:264 | plain segments are appended as they are |
| NodePath.Join | src/lib/server/posts.ts:10-11 | the joined path is normal, and joining a plain name appends it |
| Resolver.StampedNameMeaning | src/lib/server/posts.ts:101-102 | read literally, the rule-2 pattern accepts exactly `base-<ten or more digits>.md` |
| Resolver.Accepts | src/lib/server/posts.ts:94-145 | rule 1 accepts exactly the markdown file whose stem is the decoded slug; rule 2 accepts only markdown names that continue the base slug with `-`; rules 2 to 4 accept only names that contain the base slug |
| Resolver.FirstAccepted | src/lib/server/posts.ts:94-145 | `files.find` (or the rule-5 loop) under one rule: no index exactly when the rule accepts no listed file; otherwise the index of an accepted file with no accepted file before it |
| Resolver.Cascading | src/lib/server/posts.ts:94-145 | the rules in order: no answer exactly when no rule accepts any file; an answer is the first file accepted by the earliest rule that accepts one |
| Resolver.AcceptedContains | src/lib/server/posts.ts:94-145 | whatever name any of the five rules accepts contains the base slug |
| Resolver.FindFileNameBySlug | src/lib/server/posts.ts:76-157 | defined whenever `decoded.md` is listed or the base slug has no regular-expression metacharacter; an answer is a listed file; it is the first listed file accepted by the earliest rule that accepts any file; there is no answer exactly when no listed name contains the base slug |
| Resolver.NothingBeyondSubstring | src/lib/server/posts.ts:94-145 | every rule accepts only names containing the base slug, so rule 5 never decides |
| Resolver.ExactNameWins | src/lib/server/posts.ts:94-98 | when `decoded.md` is listed it is the answer, whatever else is listed and whatever characters the slug holds |
| Resolver.MetaSlugResolvesExactly | src/lib/server/posts.ts:94-98 | the slug `a+b`, whose base has a metacharacter, still resolves to a listed `a+b.md` by the exact-name rule |
| Resolver.EmptyBaseResolves | src/lib/server/posts.ts:119 | an empty base slug resolves exactly when the listing is non-empty |
| Resolver.EncodedSlugResolvesAlike | src/lib/server/posts.ts:78-79 | a percent-encoded slug the decoder restores can be resolved whenever the plain slug can, and resolves to the same file |
| Resolver.DecidesUnique | src/lib/server/posts.ts:93-145 | at most one (rule, file) pair decides a look-up |
| Resolver.StampedBeatsLaterRules | src/lib/server/posts.ts:101-112 | rule 2 beats rule 3: `foo` picks `foo-1000000000.md` over `foo-bar-2000000000.md` |
| Resolver.RuleOrderBeatsListingOrder | src/lib/server/posts.ts:101-112 | rule order overrides listing order: the same answer with the two names listed the other way round |
| Resolver.SubstringMatchesUnrelatedPost | src/lib/server/posts.ts:119 | the substring rule resolves `ab` to the unrelated `grab-1700000000000.md` |
| Resolver.NonMarkdownFileResolves | src/lib/server/posts.ts:82 | the resolver scans non-markdown names too: `notes` resolves to `notes.txt` |
| ClientPosts.FilterPostsByCategory | src/lib/posts.ts:6-14 | `all` returns the posts unchanged; any other category gives the order-preserving sublist of exactly the posts whose categories hold that exact string |
| ClientPosts.FormatPostPreview | src/lib/posts.ts:17-22 | the first `length` characters of the content (clamped to 0 and to the content's length) followed by `...`, so at most `length + 3` long |
| ClientPosts.ShortContentShownWhole | src/lib/posts.ts:19-21 | under the default length of 150, content of at most 150 characters is shown whole, followed by `...` |
| ClientPosts.PreviewExtends | src/lib/posts.ts:17-22 | a longer preview starts with the shorter one's text and goes on with the next characters of the content |
| PostStore.CategoryList | src/lib/server/posts.ts:197-201 | an array is kept, a single truthy value is wrapped, anything else becomes `[]` |
| PostStore.WebThumbnail | src/lib/server/posts.ts:187-203 | a missing or empty thumbnail becomes null; otherwise it starts with `/`, which is added only when missing |
| PostStore.ReadPost | src/lib/server/posts.ts:173-204 | the slug is the file name without `.md` and the body is kept; a truthy title, date or excerpt is kept and a falsy one becomes `Untitled`, the current time or `""`; categories are normalised to a list; the thumbnail is in web form |
| PostStore.GetPostBySlug | src/lib/server/posts.ts:159-209 | defined for every slug the resolver takes; a post exactly when the resolver finds a file that holds a parsed post, and then it is that file read by `ReadPost` |
| PostStore.PlainStemResolvable | src/lib/server/posts.ts:216-220 | the stem of a listed `.md` name without `%` can always be looked up: its own name is listed |
| PostStore.PlainListingResolvable | src/lib/server/posts.ts:211-220 | with no `%` in any markdown name, every stem in the listing can be looked up |
| PostStore.LookUpAll | src/lib/server/posts.ts:216-221 | one post per `.md` name whose look-up succeeds, in the order of the names, each the look-up's own result |
| PostStore.LookUpAllMembers | src/lib/server/posts.ts:216-221 | every successful look-up is kept, and every kept post comes from the look-up of some name |
| PostStore.PostFileNames | src/lib/server/posts.ts:24-27 | exactly the `.md` names of the listing, in listing order |
| PostStore.SortByDate | src/lib/server/posts.ts:222-224 | a permutation of its input, newest first under the date key |
| PostStore.EqualDatesReversed | src/lib/server/posts.ts:222-224 | two posts of equal date come out in reverse listing order |
| PostStore.InsertByDate | src/lib/server/posts.ts:222-224 | inserting into a newest-first list keeps it newest first and adds exactly the one post |
| PostStore.GetAllPosts | src/lib/server/posts.ts:211-232 | newest first; as a multiset exactly the successful look-ups of the `.md` names, so no more posts than names and none dropped; each post is what `getPostBySlug` returns for some listed `.md` stem |
| PostStore.LookUpFindsOwnFile | src/lib/server/posts.ts:216-220 | a `.md` name without `%` can be looked up and resolves to itself, whatever metacharacters it holds, so its post is the one stored in that file |
| PostStore.AllPostsAreTheFiles | src/lib/server/posts.ts:211-232 | with no `%` in any markdown name, every stem can be looked up and the listing holds exactly one post per parsed `.md` file |
| PostStore.UniqueCategories | src/lib/server/posts.ts:234-247 | each category of each post is listed exactly once, and nothing else is |
| PostStore.GetAllCategories | src/lib/server/posts.ts:234-247 | the distinct categories of the listed posts, each once |
| PostStore.GetPostsByCategory | src/lib/server/posts.ts:249-258 | `all` is the full listing; any other category gives the order-preserving sublist of posts holding that exact string, each as often as in the full listing |
| PostStore.StoredThumbnail | src/lib/server/posts.ts:264-281 | exactly one leading `/` is removed, and an empty result leaves the key out |
| PostStore.FrontMatterOf | src/lib/server/posts.ts:266-281 | title and date are written as given; categories always as a list, `[]` when missing; the excerpt always, `""` when falsy; the thumbnail key only for a truthy thumbnail other than `/`, with one leading `/` removed |
| PostStore.PostsDirectory | src/lib/server/posts.ts:10 | `content` under the working directory: a normalised absolute path ending in `content` |
| PostStore.WrittenName | src/lib/server/posts.ts:264 | the listed name `path.join` gives `${slug}.md`: there is one exactly when the joined path lies directly in the posts directory, and then it is a plain name; a slug without `/` gives `${slug}.md` itself |
| PostStore.SavePost | src/lib/server/posts.ts:260-291 | success is the write's success; a failed write, or one that lands outside the posts directory, changes nothing listed; otherwise the file `path.join` names is written with the defaulted front matter; every other file is kept and the directory stays consistent |
| PostStore.ParentSegmentCancels | src/lib/server/posts.ts:264-285 | the slug `a/../b` writes `b.md`, overwriting the post of that name |
| PostStore.NestedSlugUnlisted | src/lib/server/posts.ts:264-285 | the slug `a/b` writes into the sub-directory `a`, outside the listing |
| PostStore.EscapingSlugUnlisted | src/lib/server/posts.ts:264-285 | the slug `../b` writes beside the posts directory, outside the listing |
| PostStore.SaveThenGet | src/lib/server/posts.ts:159-291 | a post whose slug has no `%` and no `/` is saved as `${slug}.md` and read back under its slug: slug and body as saved, an empty title or date defaulted, missing categories and excerpt empty, the thumbnail in web form |
| PostStore.ThumbnailRoundTrip | src/lib/server/posts.ts:187-270 | a thumbnail `x` without a leading slash is saved as `x` and read back as `/x`; `/x` reads back as `/x` |
| PostStore.Remove | src/lib/server/posts.ts:314 | unlinking drops exactly the file from the listing and the store and keeps the directory consistent |
| PostStore.DeletePost | src/lib/server/posts.ts:294-319 | defined for every slug the resolver takes; success exactly when the slug resolves and the unlink succeeds; a failure changes nothing; success removes exactly the resolved file |
| PostStore.DeleteTwiceCanSucceed | src/lib/server/posts.ts:294-319 | deleting the same slug twice can succeed twice: the second delete removes a different post with the same base. This contradicts the intended idempotent delete, under which a second delete never succeeds: once `foo.md` is gone, `foo` resolves to `foo-<stamp>.md` through rule 2 |
| PostStore.DashWhitespace | src/lib/server/posts.ts:330-331 | no white space is left, a name without white space is unchanged, and a non-empty name stays non-empty |
| PostStore.TrimStartAppend | src/lib/server/posts.ts:330-331 | skipping leading white space of a string that ends in a non-space character does not reach past it |
| PostStore.TrimStartPast | src/lib/server/posts.ts:330-331 | a run of white space is skipped up to the next non-space character |
| PostStore.DashAppend | src/lib/server/posts.ts:330-331 | at a boundary after a non-space character the dashed form splits: the dashed first part, then the dashed second part |
| PostStore.DashRun | src/lib/server/posts.ts:330-331 | a whole run of white space in front becomes a single `-` |
| PostStore.DashKeepsSolid | src/lib/server/posts.ts:330-331 | dashing keeps every character other than white space and `-`, in order, and adds nothing but hyphens |
| PostStore.DashAroundRun | src/lib/server/posts.ts:330-331 | a maximal run of white space between two texts becomes exactly one `-`, and the texts on each side are dashed on their own |
| PostStore.UploadTail | src/lib/server/posts.ts:330-332 | the lower-cased, dashed name has no white space and no upper-case ASCII letter |
| PostStore.UploadName | src/lib/server/posts.ts:329-332 | the name starts with the timestamp and `-`, followed by the dashed, lower-cased original name |
| PostStore.SaveImage | src/lib/server/posts.ts:321-340 | null when the write fails; otherwise `uploads/<name>`, with no leading `/` |
| PostStore.UploadStampReadBack | src/lib/server/posts.ts:328-332 | the timestamp can be read back from the start of the upload name |
| PostStore.UploadNamesDistinct | src/lib/server/posts.ts:328-332 | uploads at different milliseconds get different names |
| PostStore.UploadIgnoresCase | src/lib/server/posts.ts:330-332 | two names that differ only in ASCII case collide in the same millisecond |
| PostStore.UploadDashesWhitespace | src/lib/server/posts.ts:330-332 | a name and its dashed form collide in the same millisecond |
| PostsRoute.ServerSlug | src/app/api/posts/route.ts:19-27 | the generated slug of the title, a hyphen, then exactly the decimal timestamp |
| SlugCodec.DigitTailUnique | src/app/api/posts/route.ts:20-27 | a string of the form `x-<digits>` splits that way in only one way |
| PostsRoute.ServerSlugsDistinct | src/app/api/posts/route.ts:19-27 | slugs generated at different milliseconds differ, whatever the titles |
| PostsRoute.Completed | src/app/api/posts/route.ts:17-38 | a supplied slug is kept verbatim, a missing one generated; a falsy date becomes the current time; given categories are kept and missing ones become `[]`; other fields pass through |
| PostsRoute.HandlePost | src/app/api/posts/route.ts:5-49 | 400 exactly when the title or content is falsy, and then nothing is written; otherwise the completed post is saved, the slug is returned exactly when the save succeeds, and a file written into the posts directory is listed |
| PostsRoute.ServerSlugBase | src/app/api/posts/route.ts:19-27 | from ten-digit timestamps on, the base slug of the generated slug is the sanitised title |
| PostsRoute.ServerSlugSafe | src/app/api/posts/route.ts:19-27 | a generated slug has no regex metacharacter and no `%` |
| PostsRoute.SubmittedPostReadsBack | src/app/api/posts/route.ts:17-49 | a post sent without a slug can be looked up and read back under the returned slug, with its title and content |
| WriteForm.SafeSlugPart | src/components/form/write-form/WriteForm.tsx:82-86 | only word characters, Hangul jamo and syllables, and single inner hyphens; it keeps the allowed characters of the trimmed title |
| WriteForm.TrimIrrelevant | src/components/form/write-form/WriteForm.tsx:82-86 | white space is outside the safe class, so the leading `trim` changes nothing: the safe part is the sanitised text |
| WriteForm.SafeSlugPartSplits | src/components/form/write-form/WriteForm.tsx:82-86 | a character outside the safe class, between two texts that each have something to keep, becomes exactly one `-` between their two safe parts |
| WriteForm.GenerateSafeSlug | src/components/form/write-form/WriteForm.tsx:77-90 | the safe part, a hyphen, then exactly the decimal timestamp |
| WriteForm.SafeSlugsDistinct | src/components/form/write-form/WriteForm.tsx:77-90 | slugs generated at different milliseconds differ, whatever the titles |
| WriteForm.SafeSlugPartIdempotent | src/components/WriteForm.tsx:67-71 | the safe part of a safe part is itself |
| WriteForm.SafeSlugBase | src/components/WriteForm.tsx:62-75 | from ten-digit timestamps on, the base slug of the generated slug is the safe part |
| WriteForm.SafeSlugSafe | src/components/form/write-form/WriteForm.tsx:77-90 | a generated slug has no regex metacharacter and no `%` |
| WriteForm.HandleSubmit | src/components/form/write-form/WriteForm.tsx:92-113 | nothing is sent exactly when the title or content is empty; otherwise the body carries the fields, the generated slug and the date |
| WriteForm.FormRequestAccepted | src/components/WriteForm.tsx:77-98 | whatever the form sends passes the route's check, and the route keeps the form's slug |
| WriteForm.SubmittedFormReadsBack | src/components/form/write-form/WriteForm.tsx:92-113 | a submitted post can be looked up and reads back under the form's slug with its title, content, categories and date |
| CategoryInput.AddCategory | src/components/form/category-input/CategoryInput.tsx:29-51 | blank input changes nothing, not even the text box; otherwise the box is cleared and the trimmed value is appended exactly when no entry equals it up to case; the invariant is kept |
| CategoryInput.RemoveCategory | src/components/CategoryInput.tsx:60-66 | drops exactly the entries equal to the name and keeps every other entry, as often as before and in order; the text box is untouched; the invariant is kept |
| CategoryInput.HandleKeyDown | src/components/form/category-input/CategoryInput.tsx:59-67 | Enter during composition does nothing; Enter otherwise adds; other keys do nothing |
| CategoryInput.GoodIsDistinct | src/components/form/category-input/CategoryInput.tsx:34-40 | categories free of duplicates up to case are free of exact duplicates |
| CategoryInput.AddThenRemove | src/components/CategoryInput.tsx:19-66 | removing a value just added gives back the previous categories |
| CategoryInput.CaseVariantRefused | src/components/CategoryInput.tsx:24-26 | a value that differs from an entry only in case is refused and the text box cleared |
| Pagination.ParseInt | src/components/blog/list/post-list/PostList.tsx:24 | a number is returned only when the string holds a digit |
| Pagination.ParseIntRoundTrip | src/components/blog/list/post-list/PostList.tsx:24-67 | reading back a page number written into a link gives the number |
| Pagination.NoDigitIsNaN | src/components/PostList.tsx:19 | a page parameter without a digit reads as NaN |
| Pagination.CurrentPage | src/components/blog/list/post-list/PostList.tsx:23-24 | a missing or empty parameter is page 1; anything else is its `parseInt` |
| Pagination.TotalPages | src/components/blog/list/post-list/PostList.tsx:27-30 | at least one page, enough pages for every post, and no empty last page |
| Pagination.JsSlice | src/components/PostList.tsx:35-38 | `slice` with negative and out-of-range bounds clamped as JavaScript does |
| Pagination.PagePosts | src/components/blog/list/post-list/PostList.tsx:40-43 | at most five posts; a page from 1 on is its run of five, cut short at the end of the list; page 0 and NaN are empty; a negative page counts its run from the end of the list |
| Pagination.PageInRange | src/components/blog/list/post-list/PostList.tsx:40-43 | a page in range shows a contiguous run of at most five posts, starting at `(p-1)*5`, and none is empty unless the list is |
| Pagination.PagesUpToPrefix | src/components/PostList.tsx:35-38 | the first `k` pages together are the first `5k` posts, in order |
| Pagination.PagesCoverAll | src/components/blog/list/post-list/PostList.tsx:27-43 | the pages, in order, give every post exactly once |
| Pagination.RedirectTestsDiffer | src/components/blog/list/post-list/PostList.tsx:33-37 | the written redirect test and the intended one agree on every number and differ on NaN |
| Pagination.NonNumericPageShowsNothing | src/components/PostList.tsx:28-38 | `?page=abc` is not redirected and shows an empty page |
| Pagination.NoRedirectShowsPosts | src/components/blog/list/post-list/PostList.tsx:33-43 | a page the intended test lets stand shows a non-empty part of a non-empty list |
| Pagination.Get | src/components/blog/list/post-list/PostList.tsx:23 | the first value under the name, or null when there is none |
| Pagination.Delete | src/components/blog/list/post-list/PostList.tsx:54-73 | every entry under the name goes, the rest is kept, and a missing name leaves the parameters unchanged |
| Pagination.Set | src/components/blog/list/post-list/PostList.tsx:48-67 | afterwards the name holds exactly the value; other names are untouched |
| Pagination.CreatePageLink | src/components/blog/list/post-list/PostList.tsx:65-77 | `page` is set; `category` is set to the current category when it is set and not `all`, and removed otherwise; other parameters are kept |
| Pagination.LegacyCreatePageLink | src/components/PostList.tsx:60-65 | only `page` is set; every other parameter, `category` included, is kept |
| Pagination.UpdatePage | src/components/PostList.tsx:41-57 | the URL pushed equals the new list's page link, since deleting an absent parameter changes nothing |
| Pagination.LinkLeadsToPage | src/components/blog/list/post-list/PostList.tsx:65-77 | a link made for a page leads to that page, in both lists |
| Pagination.Navigation | src/components/blog/list/post-list/PostList.tsx:88-115 | shown only with more than one page; one link per page `1..total`; `<` only above page 1 and `>` only below the last; active exactly on the current page |
| Pagination.NavigationInRange | src/components/PostList.tsx:76-113 | on a page in range exactly one number is active, and the arrows lead to its neighbours |
| Pagination.NavigationOnNaN | src/components/blog/list/post-list/PostList.tsx:88-115 | on a NaN page no number is active and neither arrow is shown |
| Cube.IsDirectlyConnected | src/app/three/page.tsx:431-436 | true exactly when the pair is listed in `edges`, in either order |
| Cube.EdgesAreCubeEdges | src/app/three/page.tsx:323-360 | two corners are joined exactly when their coordinates differ in one axis |
| Cube.EdgeSymmetric | src/app/three/page.tsx:431-436 | being joined is symmetric |
| Cube.ConnectionsAreNeighbours | src/app/three/page.tsx:335-360 | each row of `edgeConnections` lists exactly the three corners joined to that corner |
| Cube.FindPathAlongEdges | src/app/three/page.tsx:406-428 | the path starts at the start, ends at the end, and has two to four entries |
| Cube.PathsFrom | src/app/three/page.tsx:406-428 | for every pair of corners the path is a walk along edges, so the fallback is never used; for distinct corners it is one longer than their distance |
| Cube.WalkAtLeastDistance | src/app/three/page.tsx:406-428 | no walk between two corners is shorter than their distance, so the paths found are shortest |
| Cube.CommonNeighbour | src/app/three/page.tsx:411-415 | corners two axes apart share a neighbour, so the one-stop search finds them |
| Cube.FarCorners | src/app/three/page.tsx:417-424 | corners left to the two-stop search are opposite, and it finds a path |
| Cube.FirstJoined | src/app/three/page.tsx:411-415 | none exactly when no listed corner is joined to the target; otherwise the first listed corner that is |
| Cube.FirstJoinedPair | src/app/three/page.tsx:417-424 | none exactly when no pair is joined; otherwise the pair the nested loops reach first |
| Cube.NextTarget | src/app/three/page.tsx:523-533 | among the possible connections: none exactly when every roll picks the current corner; otherwise a corner other than the current one, picked by the first roll that does not pick the current corner |
| Cube.NextTargetRedraws | src/app/three/page.tsx:526-532 | a roll that picks the current corner is redrawn: rolls `0, 0, 1` over the options `[0, 5]` from corner 0 give 5 |
| Cube.NextTargetIsNeighbour | src/app/three/page.tsx:523-533 | the redraw loop stops after its first roll, and the new target is a neighbour of the current corner and never equals it |
| Cube.MoveIsOneEdge | src/app/three/page.tsx:523-540 | the path to a newly chosen target is a single edge |
| Cube.SelfPathIsDetour | src/app/three/page.tsx:406-424 | asking for a path from a corner to itself gives a detour through its first neighbour |

## Left out

- File system calls are replaced by a `Directory` value: `mkdirSync`, `existsSync`, `readdirSync`, `readFileSync`, `writeFileSync` and `unlinkSync`. A failed write or unlink is a boolean parameter, and a file saved under a new name is appended to the end of the listing. Real `readdir` order is up to the file system.
- The gray-matter YAML codec is not modelled. It is treated as a lossless store of the front-matter record: what `savePost` writes, `getPostBySlug` reads back. A date that YAML would parse into a `Date` object is not modelled either.
- `decodeURIComponent` is an abstract partial function. A failure stands for the `URIError` that the code catches.
- Letter case is modelled for ASCII only: `toLowerCase`, case-sensitive comparisons, and regular expressions without the `i` flag. `trim` and `\s` use the ECMAScript white-space and line-terminator set.
- `new Date(...)` comparisons in the listing sort are a key function `dateKey` passed to the model. `Array.prototype.sort` is modelled as an insertion sort that puts a post behind every post of the same date already placed, so posts with equal dates come out in reverse listing order: `SortByDate([a, b], _ => 0) == [b, a]`. The source's comparator returns -1 for equal dates in both argument orders, so there the order of such posts is up to the engine; the model promises only the date order and the permutation.
- Every front-matter date is assumed to parse: `dateKey` is total. A date that gives an Invalid Date, whose comparisons are all false, is not representable.
- ClientPosts.FormatPostPreview: counts Unicode characters, not the UTF-16 code units of JavaScript's `substring`. A preview that cuts through a surrogate pair is not modelled.
- File system paths follow POSIX `path.join` with an absolute working directory. Symbolic links, Windows separators and a relative `process.cwd()` are not modelled. A slug whose path leaves the posts directory is written there only if the sub-directory exists; the model treats that write as the boolean `writeOk` and lists nothing new.
- `markdownToHtml` is not modelled: it is a foreign remark/rehype pipeline.
- The development-only logging is left out.
- The HTTP glue is left out: `NextResponse`, the `OPTIONS` handler and the upload route. The image bytes `saveImage` writes are left out too; only the returned path is modelled.
- The handler's outer `catch` is left out. It answers 500 when the JSON body cannot be parsed, and that case has no counterpart in the model.
- The Three.js scene, rendering, easing and timers are left out. `Math.random` becomes a finite sequence of rolls.
- React state, effects, `router.push` and `window.scrollTo` are left out. A page link is kept as its path and parameter list, not as the serialised string.
- Concurrency between saving and deleting is left out: the code has no synchronisation to verify.
- `parseInt` is modelled on unbounded integers. Precision loss above 2^53 is not modelled.
- Resolver.FindFileNameBySlug: requires a base slug without regular-expression metacharacters, unless `decoded.md` is listed and the first rule answers before any pattern is built. The source splices the base into `new RegExp(...)` unescaped, and with metacharacters rule 2 would match other names or throw. That behaviour is not modelled.
- PostStore.GetPostBySlug: requires the same, since it calls the resolver.
- PostStore.DeletePost: requires the same, since it calls the resolver.
- PostStore.GetAllPosts: requires every `.md` stem in the listing to meet the same condition; any stem without `%` does, since its own name is listed. This also applies to GetAllCategories and GetPostsByCategory.
- PostStore.SaveThenGet: requires a slug with no `%`, which the look-up would decode, and no `/`, which sends the file elsewhere (`ParentSegmentCancels`, `NestedSlugUnlisted`, `EscapingSlugUnlisted`).
- PostStore.SavePost: does not check the title. `savePost` accepts an empty title, and only its callers check it.
- WriteForm.SubmittedFormReadsBack: requires a non-empty client date, because an empty `date` is replaced by the server's own date.

## Findings

| source | as written | input that shows it | evidently intended | confidence | as-written member | corrected member |
|---|---|---|---|---|---|---|
| src/components/blog/list/post-list/PostList.tsx:33-37 (also src/components/PostList.tsx:28-32) | the out-of-range test is `currentPage > totalPages` or `currentPage < 1`, and both comparisons are false for NaN | `?page=abc`: `parseInt` gives NaN, no redirect happens, and `slice(NaN, NaN)` shows no post | any page that is not a number from 1 to `totalPages` goes to page 1, as the comment above the effect says | not executed | Pagination.RedirectsAsWritten, shown by Pagination.NonNumericPageShowsNothing | Pagination.NeedsRedirect, with Pagination.RedirectTestsDiffer and Pagination.NoRedirectShowsPosts |
