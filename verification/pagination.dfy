/** The paginated post list (`src/components/blog/list/post-list/PostList.tsx`
    and its older copy `src/components/PostList.tsx`): the page number read from
    the query string, five posts per page, the redirect to page 1, the
    navigation links and the query strings they point to. */
module Pagination {
  import opened Text
  import opened Seqs
  import opened Decimal
  import PostTypes

  // ---------------------------------------------------------- parseInt

  /** A JavaScript number as `parseInt` returns it: an integer or `NaN`. */
  datatype PageNum = Num(n: int) | NaN

  function HexDigitValue(c: char): (d: nat)
    ensures d <= 16
  {
    if '0' <= c <= '9' then c as int - '0' as int
    else if 'a' <= c <= 'f' then c as int - 'a' as int + 10
    else if 'A' <= c <= 'F' then c as int - 'A' as int + 10
    else 16
  }

  /** `c` is a digit in radix `radix` (10 or 16). */
  predicate IsRadixDigit(c: char, radix: nat) { HexDigitValue(c) < radix }

  /** The longest prefix of `s` made of radix digits. */
  function DigitRun(s: string, radix: nat): (k: nat)
    ensures k <= |s|
    ensures forall i :: 0 <= i < k ==> IsRadixDigit(s[i], radix)
    ensures k < |s| ==> !IsRadixDigit(s[k], radix)
  {
    if |s| == 0 || !IsRadixDigit(s[0], radix) then 0 else 1 + DigitRun(s[1..], radix)
  }

  /** The value of a string of radix digits, most significant first (callers
      pass only digit runs found by `DigitRun`). */
  function RadixValue(s: string, radix: nat): nat {
    if |s| == 0 then 0
    else radix * RadixValue(s[..|s| - 1], radix) + HexDigitValue(s[|s| - 1])
  }

  /** Some character of `s` is a decimal digit. */
  predicate HasDigit(s: string) {
    exists i :: 0 <= i < |s| && IsAsciiDigit(s[i])
  }

  /** A digit in a suffix is a digit in the whole string. */
  lemma HasDigitSuffix(s: string, k: nat)
    requires k <= |s| && HasDigit(s[k..])
    ensures HasDigit(s)
  {
    var i :| 0 <= i < |s[k..]| && IsAsciiDigit(s[k..][i]);
    assert s[k + i] == s[k..][i];
  }

  /** The unsigned part of `parseInt`: hexadecimal after `0x`/`0X`, decimal
      otherwise, up to the first non-digit; nothing when no digit is read. */
  function ParseMagnitude(u: string): (r: Option<nat>)
    ensures r.Some? ==> HasDigit(u)
  {
    var hex := |u| >= 2 && u[0] == '0' && (u[1] == 'x' || u[1] == 'X');
    var radix := if hex then 16 else 10;
    var digits := if hex then u[2..] else u;
    var k := DigitRun(digits, radix);
    if k == 0 then None
    else
      assert HasDigit(u) by {
        assert IsAsciiDigit(u[0]);
      }
      Some(RadixValue(digits[..k], radix))
  }

  /** `parseInt(s)` without a radix: skip leading white space, take an optional
      sign, then read the magnitude; `NaN` when no digit was read. */
  function ParseInt(s: string): (r: PageNum)
    ensures r.Num? ==> HasDigit(s)
  {
    var t := TrimStart(s);
    var neg := |t| > 0 && t[0] == '-';
    var j := if |t| > 0 && (t[0] == '-' || t[0] == '+') then 1 else 0;
    var u := t[j..];
    match ParseMagnitude(u)
    case None => NaN
    case Some(v) =>
      assert HasDigit(s) by {
        HasDigitSuffix(t, j);
        HasDigitSuffix(s, |s| - |t|);
      }
      Num(if neg then -(v as int) else v)
  }

  /** A string of decimal digits not starting with `0x` reads as its value. */
  lemma MagnitudeOfDigits(s: string)
    requires |s| >= 1 && AllDigits(s)
    ensures ParseMagnitude(s) == Some(StringToNat(s))
  {
    if |s| >= 2 {
      assert s[1] != 'x' && s[1] != 'X';
    }
    DigitRunAll(s);
    assert s[..|s|] == s;
    RadixTenIsDecimal(s);
  }

  /** `String(n)` for an integer. */
  function IntToString(n: int): (r: string)
    ensures |r| >= 1
  {
    if n < 0 then "-" + NatToString(-n) else NatToString(n)
  }

  /** On decimal digits the radix-10 value is the decimal value. */
  lemma {:induction false} RadixTenIsDecimal(s: string)
    requires AllDigits(s)
    ensures RadixValue(s, 10) == StringToNat(s)
    decreases |s|
  {
    if |s| > 0 {
      RadixTenIsDecimal(s[..|s| - 1]);
    }
  }

  /** `DigitRun` covers a whole string of decimal digits. */
  lemma {:induction false} DigitRunAll(s: string)
    requires AllDigits(s)
    ensures DigitRun(s, 10) == |s|
    decreases |s|
  {
    if |s| > 0 {
      DigitRunAll(s[1..]);
    }
  }

  /** A digit is not white space. */
  lemma DigitNotSpace(c: char)
    requires IsAsciiDigit(c)
    ensures !IsJsSpace(c)
  {
  }

  /** A string of decimal digits reads as its value. */
  lemma ParseDigits(s: string)
    requires |s| >= 1 && AllDigits(s)
    ensures ParseInt(s) == Num(StringToNat(s))
  {
    DigitNotSpace(s[0]);
    ParseUnsigned(s);
    MagnitudeOfDigits(s);
  }

  /** Text with no leading white space or sign reads as its magnitude. */
  lemma ParseUnsigned(s: string)
    requires |s| > 0 && !IsJsSpace(s[0]) && s[0] != '-' && s[0] != '+'
    ensures ParseMagnitude(s).Some? ==> ParseInt(s) == Num(ParseMagnitude(s).value)
  {
    TrimStartNoSpace(s);
    assert s[0..] == s;
  }

  /** A minus sign and decimal digits read as the negated value. */
  lemma ParseNegativeDigits(s: string)
    requires |s| >= 1 && AllDigits(s)
    ensures ParseInt("-" + s) == Num(-(StringToNat(s) as int))
  {
    var t := "-" + s;
    assert t[0] == '-' && t[1..] == s;
    TrimStartNoSpace(t);
    MagnitudeOfDigits(s);
  }

  /** `parseInt(String(n)) === n`: a page number written into a link is read
      back unchanged. */
  lemma ParseIntRoundTrip(n: int)
    ensures ParseInt(IntToString(n)) == Num(n)
  {
    if n < 0 {
      var m: nat := -n;
      var s := NatToString(m);
      assert IntToString(n) == "-" + s;
      NatToStringRoundTrip(m);
      ParseNegativeDigits(s);
    } else {
      var s := NatToString(n);
      assert IntToString(n) == s;
      NatToStringRoundTrip(n);
      ParseDigits(s);
    }
  }

  /** A query value without any digit is `NaN`. */
  lemma NoDigitIsNaN(s: string)
    requires forall i :: 0 <= i < |s| ==> !IsAsciiDigit(s[i])
    ensures ParseInt(s) == NaN
  {
  }

  /** `const currentPage = pageParam ? parseInt(pageParam) : 1`. */
  function CurrentPage(pageParam: Option<string>): (r: PageNum)
    ensures !PostTypes.Truthy(pageParam) ==> r == Num(1)
    ensures PostTypes.Truthy(pageParam) ==> r == ParseInt(pageParam.value)
  {
    if pageParam.Some? && pageParam.value != "" then ParseInt(pageParam.value) else Num(1)
  }

  // ---------------------------------------------------------- pages

  const PostsPerPage := 5

  /** `Math.max(1, Math.ceil(count / 5))`. */
  function TotalPages(count: nat): (r: nat)
    ensures r >= 1
    ensures count <= r * PostsPerPage
    ensures count > 0 ==> (r - 1) * PostsPerPage < count
    ensures count == 0 ==> r == 1
  {
    if count == 0 then 1 else (count + PostsPerPage - 1) / PostsPerPage
  }

  /** A relative index of `Array.prototype.slice`: negative counts from the end,
      and the result is clamped to `[0, len]`. */
  function SliceIndex(x: int, len: nat): (r: nat)
    ensures r <= len
    ensures 0 <= x <= len ==> r == x
  {
    if x < 0 then (if len + x < 0 then 0 else len + x) else if x > len then len else x
  }

  /** `s.slice(start, end)`. */
  function JsSlice<T>(s: seq<T>, start: int, end: int): (r: seq<T>)
    ensures var a := SliceIndex(start, |s|); var b := SliceIndex(end, |s|);
      (a < b ==> r == s[a..b]) && (a >= b ==> r == [])
  {
    var a := SliceIndex(start, |s|);
    var b := SliceIndex(end, |s|);
    if a < b then s[a..b] else []
  }

  /** The posts of page `page`: `posts.slice((page - 1) * 5, page * 5)`, where a
      `NaN` page makes both bounds `NaN`, which `slice` reads as 0. A page from 1
      on is its run of five posts, cut short at the end of the list; page 0 and
      `NaN` are empty; a negative page counts its run from the end of the list. */
  function PagePosts<T>(posts: seq<T>, page: PageNum): (r: seq<T>)
    ensures |r| <= PostsPerPage
    ensures page.NaN? || page == Num(0) ==> r == []
    ensures page.Num? && page.n >= 1 ==>
      r == posts[Min((page.n - 1) * PostsPerPage, |posts|)..Min(page.n * PostsPerPage, |posts|)]
    ensures page.Num? && page.n < 0 ==>
      var lo := |posts| + (page.n - 1) * PostsPerPage;
      var hi := lo + PostsPerPage;
      r == posts[if lo < 0 then 0 else lo..if hi < 0 then 0 else hi]
  {
    match page
    case NaN => JsSlice(posts, 0, 0)
    case Num(p) => JsSlice(posts, (p - 1) * PostsPerPage, p * PostsPerPage)
  }

  function Min(a: int, b: int): int { if a <= b then a else b }

  /** A page in range shows the next five posts from `(page - 1) * 5`, or the
      rest of the list on the last page, and is never empty unless there are
      no posts. */
  lemma PageInRange<T>(posts: seq<T>, p: int)
    requires 1 <= p <= TotalPages(|posts|)
    ensures (p - 1) * PostsPerPage <= Min(p * PostsPerPage, |posts|) || |posts| == 0
    ensures |posts| > 0 ==>
      PagePosts(posts, Num(p)) == posts[(p - 1) * PostsPerPage..Min(p * PostsPerPage, |posts|)]
    ensures |PagePosts(posts, Num(p))| <= PostsPerPage
    ensures |posts| > 0 ==> |PagePosts(posts, Num(p))| > 0
  {
  }

  /** Pages 1 to `k` laid end to end. */
  function PagesUpTo<T>(posts: seq<T>, k: nat): seq<T> {
    if k == 0 then [] else PagesUpTo(posts, k - 1) + PagePosts(posts, Num(k))
  }

  /** Page `k` is the slice between the clamped page bounds. */
  lemma PageSlice<T>(posts: seq<T>, k: nat)
    requires k >= 1
    ensures Min((k - 1) * PostsPerPage, |posts|) <= Min(k * PostsPerPage, |posts|)
    ensures PagePosts(posts, Num(k)) ==
      posts[Min((k - 1) * PostsPerPage, |posts|)..Min(k * PostsPerPage, |posts|)]
  {
    var lo := (k - 1) * PostsPerPage;
    var hi := k * PostsPerPage;
    assert 0 <= lo && hi == lo + PostsPerPage;
  }

  /** Pages 1 to `k` hold exactly the first `5k` posts, in order. */
  lemma {:induction false} PagesUpToPrefix<T>(posts: seq<T>, k: nat)
    ensures PagesUpTo(posts, k) == posts[..Min(k * PostsPerPage, |posts|)]
  {
    if k > 0 {
      PagesUpToPrefix(posts, k - 1);
      var a := Min((k - 1) * PostsPerPage, |posts|);
      var b := Min(k * PostsPerPage, |posts|);
      PageSlice(posts, k);
      SliceJoin(posts, a, b);
    }
  }

  /** The pages partition the list: read in order they give every post once,
      in the list's order. */
  lemma PagesCoverAll<T>(posts: seq<T>)
    ensures PagesUpTo(posts, TotalPages(|posts|)) == posts
  {
    PagesUpToPrefix(posts, TotalPages(|posts|));
    assert posts[..|posts|] == posts;
  }

  // ---------------------------------------------------------- redirect

  /** The redirect test as the effect writes it:
      `currentPage > totalPages || currentPage < 1`. Both comparisons are
      false for `NaN`. */
  predicate RedirectsAsWritten(page: PageNum, total: int) {
    page.Num? && (page.n > total || page.n < 1)
  }

  /** The redirect the comment above it describes: any page that is not a
      page number between 1 and the total. */
  predicate NeedsRedirect(page: PageNum, total: int) {
    page.NaN? || page.n > total || page.n < 1
  }

  /** The two tests agree on every number and differ on `NaN` only. */
  lemma RedirectTestsDiffer(page: PageNum, total: int)
    ensures page.Num? ==> (RedirectsAsWritten(page, total) <==> NeedsRedirect(page, total))
    ensures page.NaN? ==> !RedirectsAsWritten(page, total) && NeedsRedirect(page, total)
  {
  }

  /** A non-numeric `?page=` is not redirected as written, and shows no post
      even though there are posts. */
  lemma NonNumericPageShowsNothing<T>(posts: seq<T>)
    requires |posts| > 0
    ensures CurrentPage(Some("abc")) == NaN
    ensures !RedirectsAsWritten(CurrentPage(Some("abc")), TotalPages(|posts|))
    ensures PagePosts(posts, CurrentPage(Some("abc"))) == []
  {
    var s := "abc";
    assert !IsAsciiDigit(s[0]) && !IsAsciiDigit(s[1]) && !IsAsciiDigit(s[2]);
    NoDigitIsNaN(s);
  }

  /** With the intended test, a page that stays put shows part of the list:
      the right five posts, and at least one when there are any. */
  lemma NoRedirectShowsPosts<T>(posts: seq<T>, pageParam: Option<string>)
    requires !NeedsRedirect(CurrentPage(pageParam), TotalPages(|posts|))
    ensures var p := CurrentPage(pageParam).n;
      1 <= p <= TotalPages(|posts|)
      && (|posts| > 0 ==> 0 < |PagePosts(posts, Num(p))| <= PostsPerPage)
  {
    PageInRange(posts, CurrentPage(pageParam).n);
  }

  // ---------------------------------------------------------- query strings

  /** The entries of a `URLSearchParams`, in order. */
  type Params = seq<(string, string)>

  /** The values stored under `name`, in order. */
  function Named(ps: Params, name: string): seq<string> {
    if |ps| == 0 then []
    else (if ps[0].0 == name then [ps[0].1] else []) + Named(ps[1..], name)
  }

  /** `params.get(name)`: the first value under `name`. */
  function Get(ps: Params, name: string): (r: Option<string>)
    ensures r.None? <==> Named(ps, name) == []
    ensures r.Some? ==> r.value == Named(ps, name)[0]
  {
    if |ps| == 0 then None
    else if ps[0].0 == name then Some(ps[0].1)
    else Get(ps[1..], name)
  }

  /** `params.has(name)`. */
  predicate Has(ps: Params, name: string) {
    exists i :: 0 <= i < |ps| && ps[i].0 == name
  }

  lemma {:induction false} HasNamed(ps: Params, name: string)
    ensures Has(ps, name) <==> Named(ps, name) != []
    decreases |ps|
  {
    if |ps| > 0 {
      HasNamed(ps[1..], name);
      if ps[0].0 != name && Has(ps, name) {
        var i :| 0 <= i < |ps| && ps[i].0 == name;
        assert ps[1..][i - 1].0 == name;
      }
    }
  }

  /** `params.delete(name)`: every entry under `name` goes; the others stay in
      order. */
  function Delete(ps: Params, name: string): (r: Params)
    ensures Named(r, name) == []
    ensures forall other :: other != name ==> Named(r, other) == Named(ps, other)
    ensures !Has(ps, name) ==> r == ps
  {
    if |ps| == 0 then []
    else if ps[0].0 == name then Delete(ps[1..], name)
    else
      assert !Has(ps, name) ==> !Has(ps[1..], name) by {
        if Has(ps[1..], name) {
          var i :| 0 <= i < |ps[1..]| && ps[1..][i].0 == name;
          assert ps[i + 1].0 == name;
        }
      }
      [ps[0]] + Delete(ps[1..], name)
  }

  /** The first entry under `name` takes `value`, later ones go. */
  function ReplaceFirst(ps: Params, name: string, value: string): (r: Params)
    requires Named(ps, name) != []
    ensures Named(r, name) == [value]
    ensures forall other :: other != name ==> Named(r, other) == Named(ps, other)
  {
    if ps[0].0 == name then [(name, value)] + Delete(ps[1..], name)
    else [ps[0]] + ReplaceFirst(ps[1..], name, value)
  }

  lemma {:induction false} NamedAppend(a: Params, b: Params, name: string)
    ensures Named(a + b, name) == Named(a, name) + Named(b, name)
    decreases |a|
  {
    if |a| == 0 {
      assert a + b == b;
    } else {
      assert (a + b)[1..] == a[1..] + b;
      NamedAppend(a[1..], b, name);
    }
  }

  /** `params.set(name, value)`: afterwards `name` holds exactly `value`, and
      every other name keeps its values. */
  function Set(ps: Params, name: string, value: string): (r: Params)
    ensures Named(r, name) == [value]
    ensures forall other :: other != name ==> Named(r, other) == Named(ps, other)
  {
    HasNamed(ps, name);
    if Has(ps, name) then ReplaceFirst(ps, name, value)
    else
      var r := ps + [(name, value)];
      NamedAppend(ps, [(name, value)], name);
      forall other | other != name ensures Named(r, other) == Named(ps, other) {
        NamedAppend(ps, [(name, value)], other);
      }
      r
  }

  /** A link: the current path and its query parameters. The serialisation by
      `toString` is not modelled. */
  datatype Link = Link(path: string, query: Params)

  /** `currentCategory && currentCategory !== 'all'`. */
  predicate KeepsCategory(currentCategory: Option<string>) {
    PostTypes.Truthy(currentCategory) && currentCategory.value != "all"
  }

  /** `createPageLink(page)` of the current list: `page` set, `category` set to
      the current category or removed when it is missing or `"all"`. */
  function CreatePageLink(path: string, search: Params, currentCategory: Option<string>, page: int): (r: Link)
    ensures r.path == path
    ensures Named(r.query, "page") == [IntToString(page)]
    ensures KeepsCategory(currentCategory) ==> Named(r.query, "category") == [currentCategory.value]
    ensures !KeepsCategory(currentCategory) ==> Named(r.query, "category") == []
    ensures forall other :: other != "page" && other != "category" ==>
      Named(r.query, other) == Named(search, other)
  {
    var ps := Set(search, "page", IntToString(page));
    Link(path, if KeepsCategory(currentCategory) then Set(ps, "category", currentCategory.value) else Delete(ps, "category"))
  }

  /** `createPageLink(page)` of the older list: only `page` is set. */
  function LegacyCreatePageLink(path: string, search: Params, page: int): (r: Link)
    ensures r.path == path
    ensures Named(r.query, "page") == [IntToString(page)]
    ensures forall other :: other != "page" ==> Named(r.query, other) == Named(search, other)
  {
    Link(path, Set(search, "page", IntToString(page)))
  }

  /** `updatePage(page)` (both lists): the URL pushed, which deletes `category`
      only `if (params.has('category'))`. */
  function UpdatePage(path: string, search: Params, currentCategory: Option<string>, page: int): (r: Link)
    ensures r == CreatePageLink(path, search, currentCategory, page)
  {
    var ps := Set(search, "page", IntToString(page));
    Link(path,
      if KeepsCategory(currentCategory) then Set(ps, "category", currentCategory.value)
      else if Has(ps, "category") then Delete(ps, "category")
      else ps)
  }

  /** The page a link leads to is the page it was made for. */
  lemma LinkLeadsToPage(path: string, search: Params, currentCategory: Option<string>, page: int)
    ensures CurrentPage(Get(CreatePageLink(path, search, currentCategory, page).query, "page")) == Num(page)
    ensures CurrentPage(Get(LegacyCreatePageLink(path, search, page).query, "page")) == Num(page)
  {
    ParseIntRoundTrip(page);
  }

  // ---------------------------------------------------------- navigation

  /** The navigation bar: the `<` target, the numbered pages with their active
      flags, and the `>` target. */
  datatype Nav = Nav(prev: Option<int>, pages: seq<int>, active: seq<bool>, next: Option<int>)

  /** The navigation shown under the list; none when everything fits on one
      page. */
  function Navigation(page: PageNum, total: nat): (r: Option<Nav>)
    ensures r.None? <==> total <= 1
    ensures r.Some? ==> |r.value.pages| == total && |r.value.active| == total
    ensures r.Some? ==> forall i :: 0 <= i < total ==> r.value.pages[i] == i + 1
    ensures r.Some? ==> forall i :: 0 <= i < total ==> (r.value.active[i] <==> page == Num(i + 1))
    ensures r.Some? ==> (r.value.prev.Some? <==> page.Num? && page.n > 1)
    ensures r.Some? ==> (r.value.next.Some? <==> page.Num? && page.n < total)
    ensures r.Some? && r.value.prev.Some? ==> r.value.prev.value == page.n - 1
    ensures r.Some? && r.value.next.Some? ==> r.value.next.value == page.n + 1
  {
    if total <= 1 then None
    else Some(Nav(
      if page.Num? && page.n > 1 then Some(page.n - 1) else None,
      seq(total, i => i + 1),
      seq(total, i => page == Num(i + 1)),
      if page.Num? && page.n < total then Some(page.n + 1) else None))
  }

  /** On a page in range exactly one number is active, and the arrows lead to
      pages in range. */
  lemma NavigationInRange(p: int, total: nat)
    requires 1 <= p <= total && total > 1
    ensures var nav := Navigation(Num(p), total).value;
      && (forall i :: 0 <= i < total ==> (nav.active[i] <==> i == p - 1))
      && (nav.prev.Some? ==> 1 <= nav.prev.value <= total)
      && (nav.next.Some? ==> 1 <= nav.next.value <= total)
      && (nav.prev.None? <==> p == 1) && (nav.next.None? <==> p == total)
  {
  }

  /** On a `NaN` page no number is active and neither arrow is shown. */
  lemma NavigationOnNaN(total: nat)
    requires total > 1
    ensures var nav := Navigation(NaN, total).value;
      (forall i :: 0 <= i < total ==> !nav.active[i]) && nav.prev.None? && nav.next.None?
  {
  }
}
