/** `findFileNameBySlug` of `src/lib/server/posts.ts`: map a requested slug to a
    file of the posts directory by five matching rules tried in a fixed order,
    each one returning the first listed file it accepts. */
module Resolver {
  import opened Text
  import opened SlugCodec

  const MdExt := ".md"

  /** Characters with a special meaning in a JavaScript regular expression. */
  predicate IsRegexMeta(c: char) {
    c == '\\' || c == '^' || c == '$' || c == '.' || c == '|' || c == '?' || c == '*'
    || c == '+' || c == '(' || c == ')' || c == '[' || c == ']' || c == '{' || c == '}'
  }

  /** A string that means itself when spliced into a regular expression. */
  predicate RegexSafe(s: string) {
    forall i :: 0 <= i < |s| ==> !IsRegexMeta(s[i])
  }

  /** `file.replace(/\.md$/, "")`. */
  function StripMd(file: string): (stem: string)
    ensures EndsWith(file, MdExt) ==> stem + MdExt == file
    ensures !EndsWith(file, MdExt) ==> stem == file
  {
    if EndsWith(file, MdExt) then file[..|file| - 3] else file
  }

  /** The five rules, in the order they are tried. */
  datatype Rule = Exact | Stamped | Prefix | Substring | Exhaustive

  const Cascade: seq<Rule> := [Exact, Stamped, Prefix, Substring, Exhaustive]

  /** `^${base}-\d{10,}\.md$` for a base without metacharacters, read literally. */
  predicate StampedName(base: string, file: string) {
    && |file| >= |base| + 14
    && file[..|base|] == base
    && file[|base|] == '-'
    && file[|file| - 3..] == MdExt
    && AllDigits(file[|base| + 1..|file| - 3])
  }

  /** The literal reading of rule 2 accepts exactly `base-<10 or more digits>.md`. */
  lemma StampedNameMeaning(base: string, file: string)
    ensures StampedName(base, file) <==>
      exists digits: string ::
        |digits| >= 10 && AllDigits(digits) && file == base + "-" + digits + MdExt
  {
    if StampedName(base, file) {
      var digits := file[|base| + 1..|file| - 3];
      assert file == base + "-" + digits + MdExt;
    }
  }

  /** Rule `rule` accepts `file` for the decoded slug and its base slug. Rule 1
      accepts exactly the markdown file named by the decoded slug, rule 2 only
      markdown names that continue the base slug with `-`, and rules 2 to 4
      only names that contain the base slug. */
  predicate Accepts(rule: Rule, decoded: string, base: string, file: string)
    ensures rule == Exact ==>
      (Accepts(rule, decoded, base, file) <==> EndsWith(file, MdExt) && StripMd(file) == decoded)
    ensures rule == Stamped && Accepts(rule, decoded, base, file) ==>
      StartsWith(file, base + "-") && EndsWith(file, MdExt)
    ensures (rule == Stamped || rule == Prefix || rule == Substring) && Accepts(rule, decoded, base, file) ==>
      Contains(file, base)
  {
    match rule
    case Exact =>
      MarkdownNameOf(decoded, file);
      file == decoded + MdExt
    case Stamped =>
      StampedShape(base, file);
      StampedName(base, file)
    case Prefix =>
      PrefixContains(base, file);
      StartsWith(file, base + "-") || StartsWith(file, base + MdExt)
    case Substring => Contains(file, base)
    case Exhaustive =>
      var stem := StripMd(file);
      || stem == decoded
      || StartsWith(stem, decoded + "-")
      || EndsWith(stem, "-" + decoded)
      || GetBaseSlug(stem) == base
  }

  /** `file` is `name.md` exactly when it ends in `.md` and its stem is `name`. */
  lemma MarkdownNameOf(name: string, file: string)
    ensures file == name + MdExt <==> EndsWith(file, MdExt) && StripMd(file) == name
  {
    if file == name + MdExt {
      assert file[|file| - 3..] == MdExt;
    }
  }

  /** A name of rule 2's form continues the base with `-` and ends in `.md`. */
  lemma StampedShape(base: string, file: string)
    ensures StampedName(base, file) ==>
      StartsWith(file, base + "-") && EndsWith(file, MdExt) && Contains(file, base)
  {
    if StampedName(base, file) {
      assert file[..|base| + 1] == base + "-";
      StartsWithTransitive(file, base + "-", base);
      StartsWithContains(file, base);
    }
  }

  /** A name that continues the base with `-` or `.md` contains the base. */
  lemma PrefixContains(base: string, file: string)
    ensures StartsWith(file, base + "-") || StartsWith(file, base + MdExt) ==> Contains(file, base)
  {
    if StartsWith(file, base + "-") || StartsWith(file, base + MdExt) {
      var tail := if StartsWith(file, base + "-") then "-" else MdExt;
      assert StartsWith(base + tail, base);
      StartsWithTransitive(file, base + tail, base);
      StartsWithContains(file, base);
    }
  }

  /** Index of the first element of `s` that `p` holds of. */
  function FirstIndex<T>(p: T -> bool, s: seq<T>): (r: Option<nat>)
    ensures r.None? <==> forall i :: 0 <= i < |s| ==> !p(s[i])
    ensures r.Some? ==> r.value < |s| && p(s[r.value])
    ensures r.Some? ==> forall j :: 0 <= j < r.value ==> !p(s[j])
  {
    if |s| == 0 then None
    else if p(s[0]) then Some(0)
    else
      match FirstIndex(p, s[1..])
      case None => None
      case Some(i) =>
        assert forall j :: 1 <= j < i + 1 ==> s[j] == s[1..][j - 1];
        Some(i + 1)
  }

  /** Index of the first file that `rule` accepts. */
  function FirstAccepted(files: seq<string>, rule: Rule, decoded: string, base: string): (r: Option<nat>)
    ensures r.None? <==> forall i :: 0 <= i < |files| ==> !Accepts(rule, decoded, base, files[i])
    ensures r.Some? ==> r.value < |files| && Accepts(rule, decoded, base, files[r.value])
    ensures r.Some? ==> forall j :: 0 <= j < r.value ==> !Accepts(rule, decoded, base, files[j])
  {
    FirstIndex(file => Accepts(rule, decoded, base, file), files)
  }

  /** Try the rules of `rules` in order; the first rule with a hit decides. */
  function Cascading(files: seq<string>, rules: seq<Rule>, decoded: string, base: string): (r: Option<string>)
    ensures r.None? <==> forall k, i :: 0 <= k < |rules| && 0 <= i < |files| ==> !Accepts(rules[k], decoded, base, files[i])
    ensures r.Some? ==> exists k, i :: Decides(files, rules, decoded, base, k, i) && files[i] == r.value
  {
    if |rules| == 0 then None
    else
      match FirstAccepted(files, rules[0], decoded, base)
      case Some(i) =>
        assert Decides(files, rules, decoded, base, 0, i);
        Some(files[i])
      case None =>
        var r := Cascading(files, rules[1..], decoded, base);
        assert r.Some? ==> exists k, i :: Decides(files, rules, decoded, base, k, i) && files[i] == r.value by {
          if r.Some? {
            var k, i :| Decides(files, rules[1..], decoded, base, k, i) && files[i] == r.value;
            assert Decides(files, rules, decoded, base, k + 1, i);
          }
        }
        r
  }

  /** Rule `rules[k]` decides in favour of `files[i]`: no earlier rule accepts any
      file, rule `k` accepts `files[i]` and no file listed before it. */
  ghost predicate Decides(files: seq<string>, rules: seq<Rule>, decoded: string, base: string, k: int, i: int) {
    && 0 <= k < |rules| && 0 <= i < |files|
    && Accepts(rules[k], decoded, base, files[i])
    && (forall j :: 0 <= j < i ==> !Accepts(rules[k], decoded, base, files[j]))
    && (forall k', j :: 0 <= k' < k && 0 <= j < |files| ==> !Accepts(rules[k'], decoded, base, files[j]))
  }

  /** The base slug that rules 2 to 5 match against. */
  function BaseOf(slug: string, decode: Decoder): string {
    GetBaseSlug(DecodeSlug(slug, decode))
  }

  /** The slug can be resolved without reading a regular expression built from
      a base with metacharacters: either rule 1 answers, which returns before
      any expression is built, or the base slug is free of metacharacters. */
  predicate Resolvable(files: seq<string>, slug: string, decode: Decoder) {
    DecodeSlug(slug, decode) + MdExt in files || RegexSafe(BaseOf(slug, decode))
  }

  /** `findFileNameBySlug` over the listing `files` (every entry of the posts
      directory, `.md` or not). The base slug is spliced into a regular
      expression unescaped, so unless rule 1 answers it must be free of
      metacharacters. The result is
      a listed file chosen by the earliest rule that accepts any file, and is
      missing exactly when no listed name contains the base slug. */
  function FindFileNameBySlug(files: seq<string>, slug: string, decode: Decoder): (r: Option<string>)
    requires Resolvable(files, slug, decode)
    ensures r.Some? ==> r.value in files
    ensures r.Some? ==> exists k, i :: Decides(files, Cascade, DecodeSlug(slug, decode), BaseOf(slug, decode), k, i) && files[i] == r.value
    ensures r.None? <==> forall i :: 0 <= i < |files| ==> !Contains(files[i], BaseOf(slug, decode))
  {
    var decoded := DecodeSlug(slug, decode);
    var base := GetBaseSlug(decoded);
    var r := Cascading(files, Cascade, decoded, base);
    assert r.None? <==> forall i :: 0 <= i < |files| ==> !Contains(files[i], base) by {
      forall i | 0 <= i < |files| && !Contains(files[i], base)
        ensures forall k :: 0 <= k < |Cascade| ==> !Accepts(Cascade[k], decoded, base, files[i])
      {
        NothingBeyondSubstring(decoded, base, files[i]);
      }
      if r.None? {
        forall i | 0 <= i < |files| ensures !Contains(files[i], base) {
          assert !Accepts(Cascade[3], decoded, base, files[i]);
        }
      }
    }
    r
  }

  /** Every rule accepts only names containing the base slug, so a name that does
      not contain it is rejected by all five rules. In particular rule 5 never
      decides: whatever it would accept, rule 4 has already accepted. */
  lemma NothingBeyondSubstring(decoded: string, base: string, file: string)
    requires base == GetBaseSlug(decoded)
    requires !Contains(file, base)
    ensures forall k :: 0 <= k < |Cascade| ==> !Accepts(Cascade[k], decoded, base, file)
  {
    forall k | 0 <= k < |Cascade| ensures !Accepts(Cascade[k], decoded, base, file) {
      AcceptedContains(Cascade[k], decoded, base, file);
    }
  }

  /** A name a rule accepts contains the base slug. */
  lemma AcceptedContains(rule: Rule, decoded: string, base: string, file: string)
    requires base == GetBaseSlug(decoded)
    ensures Accepts(rule, decoded, base, file) ==> Contains(file, base)
  {
    if Accepts(rule, decoded, base, file) {
      match rule
      case Exact =>
        StartsWithTransitive(file, decoded, base);
        StartsWithContains(file, base);
      case Stamped =>
        StartsWithContains(file, base);
      case Prefix =>
        var tail := if StartsWith(file, base + "-") then "-" else MdExt;
        assert StartsWith(base + tail, base);
        StartsWithTransitive(file, base + tail, base);
        StartsWithContains(file, base);
      case Substring =>
      case Exhaustive =>
        ExhaustiveContains(decoded, base, file);
    }
  }

  /** What rule 5 accepts contains the base slug. */
  lemma ExhaustiveContains(decoded: string, base: string, file: string)
    requires base == GetBaseSlug(decoded)
    requires Accepts(Exhaustive, decoded, base, file)
    ensures Contains(file, base)
  {
    var stem := StripMd(file);
    assert StartsWith(file, stem);
    assert StartsWith(decoded, base);
    if stem == decoded || StartsWith(stem, decoded + "-") {
      StemAfterDecoded(file, stem, decoded, base);
    } else if EndsWith(stem, "-" + decoded) {
      StemEndsWithDecoded(file, stem, decoded, base);
    } else {
      assert StartsWith(stem, base);
      StartsWithTransitive(file, stem, base);
      StartsWithContains(file, base);
    }
  }

  /** A stem that is the decoded slug or starts with it carries the base. */
  lemma StemAfterDecoded(file: string, stem: string, decoded: string, base: string)
    requires StartsWith(file, stem) && StartsWith(decoded, base)
    requires stem == decoded || StartsWith(stem, decoded + "-")
    ensures Contains(file, base)
  {
    assert StartsWith(stem, decoded) by {
      if stem != decoded {
        StartsWithTransitive(stem, decoded + "-", decoded);
      }
    }
    StartsWithTransitive(stem, decoded, base);
    StartsWithTransitive(file, stem, base);
    StartsWithContains(file, base);
  }

  /** A stem ending in `-` and the decoded slug carries the base. */
  lemma StemEndsWithDecoded(file: string, stem: string, decoded: string, base: string)
    requires StartsWith(file, stem) && StartsWith(decoded, base)
    requires EndsWith(stem, "-" + decoded)
    ensures Contains(file, base)
  {
    EndsWithContains(stem, "-" + decoded);
    assert OccursAt("-" + decoded, base, 1);
    ContainsTransitive(stem, "-" + decoded, base);
    StartsWithContains(file, stem);
    ContainsTransitive(file, stem, base);
  }

  /** If `decoded + ".md"` is listed, that file is the answer, whatever else is
      listed. */
  lemma ExactNameWins(files: seq<string>, slug: string, decode: Decoder)
    requires DecodeSlug(slug, decode) + MdExt in files
    ensures FindFileNameBySlug(files, slug, decode) == Some(DecodeSlug(slug, decode) + MdExt)
  {
    var decoded := DecodeSlug(slug, decode);
    var r := FindFileNameBySlug(files, slug, decode);
    var k, i :| Decides(files, Cascade, decoded, BaseOf(slug, decode), k, i) && files[i] == r.value;
    var j :| 0 <= j < |files| && files[j] == decoded + MdExt;
    assert Accepts(Cascade[0], decoded, BaseOf(slug, decode), files[j]);
  }

  /** An empty base slug is contained in every name: any non-empty listing
      resolves. */
  lemma EmptyBaseResolves(files: seq<string>, slug: string, decode: Decoder)
    requires BaseOf(slug, decode) == ""
    ensures FindFileNameBySlug(files, slug, decode).Some? <==> |files| > 0
  {
    if |files| > 0 {
      assert OccursAt(files[0], "", 0);
    }
  }

  /** Percent-encoding a slug does not change the file it resolves to, as long
      as the decoder restores it and the plain slug has no `%` of its own. */
  lemma EncodedSlugResolvesAlike(files: seq<string>, slug: string, encoded: string, decode: Decoder)
    requires '%' !in slug && '%' in encoded && decode(encoded) == Some(slug)
    requires Resolvable(files, slug, decode)
    ensures Resolvable(files, encoded, decode)
    ensures FindFileNameBySlug(files, encoded, decode) == FindFileNameBySlug(files, slug, decode)
  {
  }

  /** At most one (rule, file) pair decides. */
  lemma DecidesUnique(files: seq<string>, rules: seq<Rule>, decoded: string, base: string, k: int, i: int, k': int, i': int)
    requires Decides(files, rules, decoded, base, k, i)
    requires Decides(files, rules, decoded, base, k', i')
    ensures k == k' && i == i'
  {
  }

  /** A decoder that fails on every input: slugs without `%` never reach it. */
  function NoDecoding(s: string): Option<string> { None }

  /** The base slug of a slug with no `%` and no timestamp is the slug itself. */
  lemma PlainBase(slug: string, decode: Decoder)
    requires '%' !in slug && TrailingDigits(slug) == 0
    ensures DecodeSlug(slug, decode) == slug && BaseOf(slug, decode) == slug
  {
  }

  /** With no file named `decoded.md`, a first hit of rule 2 decides. */
  lemma StampedDecides(files: seq<string>, decoded: string, base: string, i: nat)
    requires FirstAccepted(files, Exact, decoded, base).None?
    requires FirstAccepted(files, Stamped, decoded, base) == Some(i)
    ensures i < |files| && Cascading(files, Cascade, decoded, base) == Some(files[i])
  {
    assert Cascade[0] == Exact && Cascade[1..][0] == Stamped;
  }

  /** `foo-1000000000.md` carries a rule-2 timestamp for the base `foo`;
      `foo-bar-2000000000.md` does not, and neither is `foo.md`. */
  lemma FooNames(stamped: string, other: string)
    requires stamped == "foo-1000000000.md" && other == "foo-bar-2000000000.md"
    ensures StampedName("foo", stamped) && !StampedName("foo", other)
    ensures stamped != "foo" + MdExt && other != "foo" + MdExt
  {
    var digits := "1000000000";
    assert stamped == "foo" + "-" + digits + MdExt;
    assert AllDigits(digits);
    StampedNameMeaning("foo", stamped);
    assert !IsAsciiDigit(other[4]);
    assert |stamped| != |"foo" + MdExt| && |other| != |"foo" + MdExt|;
  }

  /** Rule 2 beats rule 3: of `foo-1000000000.md` and `foo-bar-2000000000.md`, the
      slug `foo` picks the first. */
  lemma StampedBeatsLaterRules()
    ensures FindFileNameBySlug(["foo-1000000000.md", "foo-bar-2000000000.md"], "foo", NoDecoding)
      == Some("foo-1000000000.md")
  {
    var files := ["foo-1000000000.md", "foo-bar-2000000000.md"];
    FooNames(files[0], files[1]);
    PlainBase("foo", NoDecoding);
    var hit := FirstAccepted(files, Stamped, "foo", "foo");
    assert hit == Some(0) by {
      assert Accepts(Stamped, "foo", "foo", files[0]);
    }
    StampedDecides(files, "foo", "foo", 0);
  }

  /** Rule precedence overrides listing order: with the names listed the other
      way round, `foo` still picks `foo-1000000000.md`. */
  lemma RuleOrderBeatsListingOrder()
    ensures FindFileNameBySlug(["foo-bar-2000000000.md", "foo-1000000000.md"], "foo", NoDecoding)
      == Some("foo-1000000000.md")
  {
    var files := ["foo-bar-2000000000.md", "foo-1000000000.md"];
    FooNames(files[1], files[0]);
    PlainBase("foo", NoDecoding);
    var hit := FirstAccepted(files, Stamped, "foo", "foo");
    assert hit == Some(1) by {
      assert Accepts(Stamped, "foo", "foo", files[1]);
      assert !Accepts(Stamped, "foo", "foo", files[0]);
    }
    StampedDecides(files, "foo", "foo", 1);
  }

  /** The substring rule accepts unrelated posts: `ab` resolves to
      `grab-1700000000000.md`. */
  lemma SubstringMatchesUnrelatedPost()
    ensures FindFileNameBySlug(["grab-1700000000000.md"], "ab", NoDecoding)
      == Some("grab-1700000000000.md")
  {
    var files := ["grab-1700000000000.md"];
    assert OccursAt(files[0], "ab", 2);
  }

  /** The listing is not restricted to markdown: `notes` resolves to `notes.txt`. */
  lemma NonMarkdownFileResolves()
    ensures FindFileNameBySlug(["notes.txt"], "notes", NoDecoding) == Some("notes.txt")
  {
    assert OccursAt("notes.txt", "notes", 0);
  }

  /** Rule 1 needs no regular expression: `a+b` resolves to a listed `a+b.md`
      although its base slug holds a metacharacter. */
  lemma MetaSlugResolvesExactly()
    ensures DecodeSlug("a+b", NoDecoding) == "a+b"
    ensures !RegexSafe(BaseOf("a+b", NoDecoding))
    ensures FindFileNameBySlug(["a+b" + MdExt], "a+b", NoDecoding) == Some("a+b" + MdExt)
  {
    PlainBase("a+b", NoDecoding);
    assert IsRegexMeta("a+b"[1]);
    ExactNameWins(["a+b" + MdExt], "a+b", NoDecoding);
  }
}
