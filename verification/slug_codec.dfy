/** The two slug transformations of `src/lib/server/posts.ts` that every lookup
    starts with: percent-decoding (`decodeSlug`) and removal of the trailing
    millisecond timestamp (`getBaseSlug`). */
module SlugCodec {
  import opened Text

  /** `decodeURIComponent`, kept abstract: `None` stands for the `URIError` it
      throws on a malformed escape. */
  type Decoder = string -> Option<string>

  /** `decodeSlug`: decode only when a `%` is present, and fall back to the raw
      slug when decoding fails. */
  function DecodeSlug(slug: string, decode: Decoder): (r: string)
    ensures '%' !in slug ==> r == slug
    ensures decode(slug).None? ==> r == slug
    ensures r != slug ==> '%' in slug && decode(slug) == Some(r)
    ensures '%' in slug && decode(slug).Some? ==> r == decode(slug).value
  {
    if '%' in slug then
      match decode(slug)
      case Some(d) => d
      case None => slug
    else slug
  }

  /** A decoded slug without `%` is decoded no further: decoding it again gives
      it back. */
  lemma DecodeSlugSettles(slug: string, decode: Decoder)
    requires '%' !in DecodeSlug(slug, decode)
    ensures DecodeSlug(DecodeSlug(slug, decode), decode) == DecodeSlug(slug, decode)
  {
  }

  /** The regular expression `/-\d{10,}$/` matches `s` at index `i`: a hyphen
      followed by ten or more ASCII digits that run to the end. */
  predicate StampAt(s: string, i: int) {
    0 <= i < |s| && s[i] == '-' && |s| - i - 1 >= 10 && AllDigits(s[i + 1..])
  }

  /** The regular expression `/-\d{10,}$/` matches somewhere in `s`. */
  predicate HasStamp(s: string) {
    exists i :: 0 <= i < |s| && StampAt(s, i)
  }

  /** The regular expression can match at one index at most: the digits after a
      match contain no hyphen. */
  lemma StampUnique(s: string, i: int, j: int)
    requires StampAt(s, i) && StampAt(s, j)
    ensures i == j
  {
  }

  /** Number of ASCII digits at the end of `s`. */
  function TrailingDigits(s: string): (k: nat)
    ensures k <= |s|
    ensures forall i :: |s| - k <= i < |s| ==> IsAsciiDigit(s[i])
    ensures k < |s| ==> !IsAsciiDigit(s[|s| - k - 1])
  {
    if |s| > 0 && IsAsciiDigit(s[|s| - 1]) then TrailingDigits(s[..|s| - 1]) + 1 else 0
  }

  /** `getBaseSlug`: cut the input where `/-\d{10,}$/` matches, or return it
      unchanged when the pattern does not match. The result is always a prefix
      of the input. */
  function GetBaseSlug(s: string): (r: string)
    ensures |r| <= |s| && r == s[..|r|]
    ensures HasStamp(s) ==> StampAt(s, |r|)
    ensures !HasStamp(s) ==> r == s
  {
    var k := TrailingDigits(s);
    if k >= 10 && k < |s| && s[|s| - k - 1] == '-' then
      assert StampAt(s, |s| - k - 1);
      s[..|s| - k - 1]
    else
      assert !HasStamp(s) by {
        if i :| 0 <= i < |s| && StampAt(s, i) {
          StampTrailing(s, i);
        }
      }
      s
  }

  /** A match of the pattern sits right before the run of trailing digits. */
  lemma StampTrailing(s: string, i: int)
    requires StampAt(s, i)
    ensures TrailingDigits(s) == |s| - i - 1
  {
  }

  /** Appending a hyphen and ten or more digits to any slug, as the slug
      generators do, is exactly undone by `getBaseSlug`. */
  lemma BaseOfStamped(base: string, digits: string)
    requires |digits| >= 10 && AllDigits(digits)
    ensures GetBaseSlug(base + "-" + digits) == base
  {
    var s := base + "-" + digits;
    assert s[|base| + 1..] == digits;
    assert StampAt(s, |base|);
    StampUnique(s, |base|, |GetBaseSlug(s)|);
    assert s[..|base|] == base;
  }

  /** `getBaseSlug` removes one timestamp only, so it is not idempotent. */
  lemma BaseSlugStripsOnce()
    ensures GetBaseSlug("a-1234567890-1234567890") == "a-1234567890"
    ensures GetBaseSlug("a-1234567890") == "a"
  {
    var d := "1234567890";
    assert AllDigits(d);
    var once := "a" + "-" + d;
    assert once == "a-1234567890";
    var twice := once + "-" + d;
    assert twice == "a-1234567890-1234567890";
    BaseOfStamped(once, d);
    BaseOfStamped("a", d);
  }

  /** Index of the last `-` of `s`, or -1 when it has none. */
  function LastHyphen(s: string): (k: int)
    ensures -1 <= k < |s|
    ensures k >= 0 ==> s[k] == '-'
    ensures forall i :: k < i < |s| ==> s[i] != '-'
  {
    if |s| == 0 then -1
    else if s[|s| - 1] == '-' then |s| - 1
    else LastHyphen(s[..|s| - 1])
  }

  /** In `g-<digits>` the last hyphen is the one before the digits. */
  lemma {:induction false} LastHyphenBeforeDigits(g: string, d: string)
    requires AllDigits(d)
    ensures LastHyphen(g + "-" + d) == |g|
    decreases |d|
  {
    var s := g + "-" + d;
    if |d| > 0 {
      var d' := d[..|d| - 1];
      assert s[..|s| - 1] == g + "-" + d';
      assert s[|s| - 1] == d[|d| - 1];
      LastHyphenBeforeDigits(g, d');
    }
  }

  /** A hyphen followed by digits splits a string in one way only: the digits
      run from its last hyphen. */
  lemma DigitTailUnique(g1: string, a: string, g2: string, b: string)
    requires AllDigits(a) && AllDigits(b)
    requires g1 + "-" + a == g2 + "-" + b
    ensures a == b && g1 == g2
  {
    LastHyphenBeforeDigits(g1, a);
    LastHyphenBeforeDigits(g2, b);
    var s := g1 + "-" + a;
    assert a == s[|g1| + 1..] && b == s[|g2| + 1..];
    assert g1 == s[..|g1|] && g2 == s[..|g2|];
  }
}
