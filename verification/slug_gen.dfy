/** The title sanitiser shared by the slug generators: `generateSlug` of
    `src/lib/posts.ts`, its inline copy in the posts API route, and the
    `generateSafeSlug` of the write forms. Each one replaces every character
    outside an allowed class by a hyphen, collapses hyphen runs and removes a
    hyphen at either end. */
module SlugGen {
  import opened Text

  /** The two allowed character classes. */
  datatype CharSet =
    | SlugChars      // `[a-z0-9가-힣]` of `generateSlug`
    | SafeSlugChars  // `[\wㄱ-ㅎㅏ-ㅣ가-힣]` of `generateSafeSlug`

  /** Hangul syllables 가 (U+AC00) to 힣 (U+D7A3). */
  predicate IsHangulSyllable(c: char) { 0xAC00 <= c as int <= 0xD7A3 }

  /** Hangul compatibility jamo ㄱ (U+3131) to ㅎ (U+314E) and ㅏ (U+314F) to ㅣ (U+3163). */
  predicate IsHangulJamo(c: char) {
    (0x3131 <= c as int <= 0x314E) || (0x314F <= c as int <= 0x3163)
  }

  /** `\w` without the `u` flag: ASCII letters, digits and underscore. */
  predicate IsWordChar(c: char) {
    IsAsciiLower(c) || IsAsciiUpper(c) || IsAsciiDigit(c) || c == '_'
  }

  predicate InSet(cs: CharSet, c: char) {
    match cs
    case SlugChars => IsAsciiLower(c) || IsAsciiDigit(c) || IsHangulSyllable(c)
    case SafeSlugChars => IsWordChar(c) || IsHangulJamo(c) || IsHangulSyllable(c)
  }

  predicate NoDoubleHyphen(s: string) {
    forall i :: 0 <= i < |s| - 1 ==> !(s[i] == '-' && s[i + 1] == '-')
  }

  /** What a sanitiser promises about its output: only allowed characters and
      hyphens, never two hyphens in a row, and no hyphen at either end. */
  predicate Clean(s: string, cs: CharSet) {
    && (forall i :: 0 <= i < |s| ==> InSet(cs, s[i]) || s[i] == '-')
    && NoDoubleHyphen(s)
    && (|s| > 0 ==> s[0] != '-' && s[|s| - 1] != '-')
  }

  /** The allowed characters of `s`, in order: what the sanitiser must keep. */
  function Kept(cs: CharSet, s: string): string {
    if |s| == 0 then ""
    else (if InSet(cs, s[0]) then [s[0]] else "") + Kept(cs, s[1..])
  }

  lemma {:induction false} KeptAppend(cs: CharSet, a: string, b: string)
    ensures Kept(cs, a + b) == Kept(cs, a) + Kept(cs, b)
    decreases |a|
  {
    if |a| > 0 {
      assert (a + b)[0] == a[0];
      assert (a + b)[1..] == a[1..] + b;
      KeptAppend(cs, a[1..], b);
    } else {
      assert a + b == b;
    }
  }

  /** `s.replace(/[^class]/g, "-")`. */
  function ReplaceOutside(s: string, cs: CharSet): (r: string)
    ensures |r| == |s|
    ensures forall i :: 0 <= i < |s| ==> r[i] == if InSet(cs, s[i]) then s[i] else '-'
  {
    seq(|s|, i requires 0 <= i < |s| => if InSet(cs, s[i]) then s[i] else '-')
  }

  lemma {:induction false} ReplaceKeeps(s: string, cs: CharSet)
    ensures Kept(cs, ReplaceOutside(s, cs)) == Kept(cs, s)
    decreases |s|
  {
    if |s| > 0 {
      var r := ReplaceOutside(s, cs);
      assert r[1..] == ReplaceOutside(s[1..], cs);
      ReplaceKeeps(s[1..], cs);
    }
  }

  /** `s.replace(/-+/g, "-")`: every run of hyphens becomes one hyphen. */
  function CollapseHyphens(s: string): string
    decreases |s|
  {
    if |s| == 0 then s
    else if |s| >= 2 && s[0] == '-' && s[1] == '-' then CollapseHyphens(s[1..])
    else [s[0]] + CollapseHyphens(s[1..])
  }

  /** The collapse keeps the promises of `CollapsedFrom`. */
  lemma {:induction false} CollapseFacts(s: string)
    ensures CollapsedFrom(CollapseHyphens(s), s)
    decreases |s|
  {
    if |s| > 0 {
      CollapseFacts(s[1..]);
      if |s| >= 2 && s[0] == '-' && s[1] == '-' {
        CollapseDrop(s, CollapseHyphens(s[1..]));
      } else {
        CollapseCons(s, CollapseHyphens(s[1..]));
      }
    }
  }

  /** What the collapse promises: no two hyphens in a row, no longer than the
      input and empty only with it, the same first and last character, only
      characters of the input, and no change to text without a double hyphen. */
  predicate CollapsedFrom(r: string, s: string) {
    && NoDoubleHyphen(r)
    && |r| <= |s| && (|r| == 0 <==> |s| == 0)
    && (|s| > 0 ==> r[0] == s[0] && r[|r| - 1] == s[|s| - 1])
    && (forall i :: 0 <= i < |r| ==> r[i] in s)
    && (NoDoubleHyphen(s) ==> r == s)
  }

  /** Dropping the first of two leading hyphens keeps the promises. */
  lemma CollapseDrop(s: string, r: string)
    requires |s| >= 2 && s[0] == '-' && s[1] == '-'
    requires CollapsedFrom(r, s[1..])
    ensures CollapsedFrom(r, s)
  {
    assert !NoDoubleHyphen(s) by {
      assert s[0] == '-' && s[0 + 1] == '-';
    }
    forall i | 0 <= i < |r| ensures r[i] in s {
      assert r[i] in s[1..];
    }
  }

  /** Keeping the first character before a collapsed rest keeps the promises. */
  lemma CollapseCons(s: string, rest: string)
    requires |s| > 0 && !(|s| >= 2 && s[0] == '-' && s[1] == '-')
    requires CollapsedFrom(rest, s[1..])
    ensures CollapsedFrom([s[0]] + rest, s)
  {
    var r := [s[0]] + rest;
    forall i | 0 <= i < |r| ensures r[i] in s {
      if i > 0 {
        assert r[i] == rest[i - 1] && rest[i - 1] in s[1..];
      }
    }
    forall i | 0 <= i < |r| - 1 ensures !(r[i] == '-' && r[i + 1] == '-') {
      if i > 0 {
        assert r[i] == rest[i - 1] && r[i + 1] == rest[i];
      }
    }
    if NoDoubleHyphen(s) {
      forall i | 0 <= i < |s[1..]| - 1 ensures !(s[1..][i] == '-' && s[1..][i + 1] == '-') {
        assert s[1..][i] == s[i + 1] && s[1..][i + 1] == s[i + 2];
      }
      assert s == [s[0]] + s[1..];
    }
  }

  /** Only hyphens are removed by the collapse, so the allowed characters survive. */
  lemma {:induction false} CollapseKeeps(s: string, cs: CharSet)
    ensures Kept(cs, CollapseHyphens(s)) == Kept(cs, s)
    decreases |s|
  {
    if |s| > 0 {
      CollapseKeeps(s[1..], cs);
      var rest := CollapseHyphens(s[1..]);
      CollapseStep(s);
      if |s| >= 2 && s[0] == '-' && s[1] == '-' {
        HyphenOutside(cs);
      } else {
        KeptCons(cs, s[0], rest);
      }
    }
  }

  /** One step of the collapse: the first of two leading hyphens goes, any
      other first character stays. */
  lemma CollapseStep(s: string)
    requires |s| > 0
    ensures |s| >= 2 && s[0] == '-' && s[1] == '-' ==> CollapseHyphens(s) == CollapseHyphens(s[1..])
    ensures !(|s| >= 2 && s[0] == '-' && s[1] == '-') ==> CollapseHyphens(s) == [s[0]] + CollapseHyphens(s[1..])
  {
  }

  /** The hyphen belongs to neither allowed class. */
  lemma HyphenOutside(cs: CharSet)
    ensures !InSet(cs, '-')
  {
  }

  /** `Kept` of a string with a known first character. */
  lemma KeptCons(cs: CharSet, c: char, t: string)
    ensures Kept(cs, [c] + t) == (if InSet(cs, c) then [c] else "") + Kept(cs, t)
  {
    assert ([c] + t)[0] == c && ([c] + t)[1..] == t;
  }

  /** `s.replace(/^-|-$/g, "")`: one hyphen at the start and one at the end go. */
  function StripHyphenEnds(s: string): (r: string)
    ensures NoDoubleHyphen(s) ==> NoDoubleHyphen(r) && (|r| > 0 ==> r[0] != '-' && r[|r| - 1] != '-')
    ensures forall i :: 0 <= i < |r| ==> r[i] in s
    ensures (|s| > 0 ==> s[0] != '-' && s[|s| - 1] != '-') ==> r == s
  {
    var a := if |s| > 0 && s[0] == '-' then s[1..] else s;
    assert NoDoubleHyphen(s) ==> NoDoubleHyphen(a) && (|a| > 0 ==> a[0] != '-');
    if |a| > 0 && a[|a| - 1] == '-' then a[..|a| - 1] else a
  }

  lemma StripKeeps(s: string, cs: CharSet)
    ensures Kept(cs, StripHyphenEnds(s)) == Kept(cs, s)
  {
    HyphenOutside(cs);
    var a := if |s| > 0 && s[0] == '-' then s[1..] else s;
    assert Kept(cs, a) == Kept(cs, s) by {
      if |s| > 0 && s[0] == '-' {
        KeptCons(cs, s[0], a);
        assert s == [s[0]] + a;
      }
    }
    var b := if |a| > 0 && a[|a| - 1] == '-' then a[..|a| - 1] else a;
    assert Kept(cs, b) == Kept(cs, a) by {
      if |a| > 0 && a[|a| - 1] == '-' {
        KeptAppend(cs, b, ['-']);
        assert a == b + ['-'];
        KeptCons(cs, '-', "");
        assert ['-'] + "" == ['-'];
      }
    }
    assert StripHyphenEnds(s) == b;
  }

  /** The whole pipeline: replace, collapse, strip. The output is clean and
      keeps every allowed character of the input, in order. */
  function Sanitise(s: string, cs: CharSet): (r: string)
    ensures Clean(r, cs)
    ensures Kept(cs, r) == Kept(cs, s)
  {
    var replaced := ReplaceOutside(s, cs);
    var collapsed := CollapseHyphens(replaced);
    CollapseFacts(replaced);
    ReplaceKeeps(s, cs);
    CollapseKeeps(replaced, cs);
    StripKeeps(collapsed, cs);
    StripHyphenEnds(collapsed)
  }

  /** Clean text passes through the sanitiser unchanged. */
  lemma SanitiseClean(s: string, cs: CharSet)
    requires Clean(s, cs)
    ensures Sanitise(s, cs) == s
  {
    assert ReplaceOutside(s, cs) == s;
    CollapseFacts(s);
  }

  // ------------------------------------------------ where the hyphens go

  predicate AllHyphens(h: string) {
    forall i :: 0 <= i < |h| ==> h[i] == '-'
  }

  /** Text with nothing to keep holds only characters outside the class. */
  lemma {:induction false} NoneKept(cs: CharSet, w: string)
    requires Kept(cs, w) == ""
    ensures forall i :: 0 <= i < |w| ==> !InSet(cs, w[i])
    decreases |w|
  {
    if |w| > 0 {
      assert |Kept(cs, w[1..])| == 0;
      NoneKept(cs, w[1..]);
      forall i | 0 <= i < |w| ensures !InSet(cs, w[i]) {
        if i > 0 {
          assert w[i] == w[1..][i - 1];
        }
      }
    }
  }

  /** Text made only of characters outside the class has nothing to keep. */
  lemma {:induction false} NothingKept(cs: CharSet, w: string)
    requires forall i :: 0 <= i < |w| ==> !InSet(cs, w[i])
    ensures Kept(cs, w) == ""
    decreases |w|
  {
    if |w| > 0 {
      NothingKept(cs, w[1..]);
    }
  }

  /** The replacement works character by character, so it splits at any point. */
  lemma ReplaceAppend(s: string, t: string, cs: CharSet)
    ensures ReplaceOutside(s + t, cs) == ReplaceOutside(s, cs) + ReplaceOutside(t, cs)
  {
    var l, r := ReplaceOutside(s + t, cs), ReplaceOutside(s, cs) + ReplaceOutside(t, cs);
    forall i | 0 <= i < |l| ensures l[i] == r[i] {
      if i < |s| {
        assert (s + t)[i] == s[i];
      } else {
        assert (s + t)[i] == t[i - |s|];
      }
    }
  }

  /** Text with nothing to keep is replaced by hyphens only. */
  lemma ReplaceBlank(w: string, cs: CharSet)
    requires Kept(cs, w) == ""
    ensures AllHyphens(ReplaceOutside(w, cs))
  {
    NoneKept(cs, w);
  }

  /** The collapse works piecewise across a boundary that does not cut a run of
      hyphens. */
  lemma {:induction false} CollapseAppend(x: string, y: string)
    requires (|x| > 0 && x[|x| - 1] != '-') || |y| == 0 || y[0] != '-'
    ensures CollapseHyphens(x + y) == CollapseHyphens(x) + CollapseHyphens(y)
    decreases |x|
  {
    var xy := x + y;
    if |x| == 0 {
      assert xy == y;
    } else if |x| == 1 {
      assert xy == [x[0]] + y && xy[1..] == y;
      CollapseStep(xy);
      CollapseStep(x);
    } else {
      assert xy[0] == x[0] && xy[1] == x[1] && xy[1..] == x[1..] + y;
      CollapseStep(xy);
      CollapseStep(x);
      CollapseAppend(x[1..], y);
      var cx, cy := CollapseHyphens(x[1..]), CollapseHyphens(y);
      if !(x[0] == '-' && x[1] == '-') {
        assert CollapseHyphens(xy) == [x[0]] + (cx + cy);
        AppendAssoc([x[0]], cx, cy);
      }
    }
  }

  /** A leading run of hyphens collapses as a single hyphen would. */
  lemma {:induction false} CollapseLeadingRun(h: string, y: string)
    requires |h| > 0 && AllHyphens(h)
    ensures CollapseHyphens(h + y) == CollapseHyphens("-" + y)
    decreases |h|
  {
    if |h| > 1 {
      var hy := h + y;
      assert hy[0] == h[0] && hy[1] == h[1] && hy[1..] == h[1..] + y;
      CollapseStep(hy);
      CollapseLeadingRun(h[1..], y);
    } else {
      assert h == "-";
    }
  }

  /** A trailing run of hyphens collapses as a single hyphen would. */
  lemma {:induction false} CollapseTrailingRun(x: string, h: string)
    requires |h| > 0 && AllHyphens(h)
    ensures CollapseHyphens(x + h) == CollapseHyphens(x + "-")
    decreases |x|
  {
    if |x| == 0 {
      assert x + h == h + "" && x + "-" == "-" + "";
      CollapseLeadingRun(h, "");
    } else {
      var xh, xd := x + h, x + "-";
      assert xh[0] == x[0] && xd[0] == x[0];
      assert xh[1..] == x[1..] + h && xd[1..] == x[1..] + "-";
      assert |x| >= 2 ==> xh[1] == x[1] && xd[1] == x[1];
      assert |x| == 1 ==> xh[1] == h[0] && xd[1] == '-';
      CollapseStep(xh);
      CollapseStep(xd);
      CollapseTrailingRun(x[1..], h);
    }
  }

  /** A hyphen in front of text that does not start with one is stripped. */
  lemma StripLeading(y: string)
    requires |y| == 0 || y[0] != '-'
    ensures StripHyphenEnds("-" + y) == StripHyphenEnds(y)
  {
    assert ("-" + y)[1..] == y;
  }

  /** A hyphen behind text that does not end with one is stripped. */
  lemma StripTrailing(x: string)
    requires |x| > 0 && x[|x| - 1] != '-'
    ensures StripHyphenEnds(x + "-") == StripHyphenEnds(x)
  {
    var xd := x + "-";
    var a := if x[0] == '-' then x[1..] else x;
    assert xd[0] == x[0];
    assert (if xd[0] == '-' then xd[1..] else xd) == a + "-";
    assert (a + "-")[..|a|] == a;
  }

  /** The two halves of `StripHyphenEnds`: a hyphen at the start goes ... */
  function DropFirst(s: string): string {
    if |s| > 0 && s[0] == '-' then s[1..] else s
  }

  /** ... and so does a hyphen at the end. */
  function DropLast(s: string): string {
    if |s| > 0 && s[|s| - 1] == '-' then s[..|s| - 1] else s
  }

  lemma StripHalves(s: string)
    ensures StripHyphenEnds(s) == DropLast(DropFirst(s))
  {
  }

  /** Stripping text joined by a hyphen strips each side on its own. */
  lemma StripAround(x: string, y: string)
    requires |x| > 0 && x[|x| - 1] != '-'
    requires |y| > 0 && y[0] != '-'
    ensures StripHyphenEnds(x + ("-" + y)) == StripHyphenEnds(x) + ("-" + y[..|StripHyphenEnds(y)|])
    ensures StripHyphenEnds(y) == y[..|StripHyphenEnds(y)|]
  {
    var z := x + ("-" + y);
    StripHalves(z);
    StripHalves(x);
    StripHalves(y);
    var xa := DropFirst(x);
    DropFirstJoin(x, "-" + y);
    DropFirstTail(x);
    DropLastJoin(xa, y);
    DropLastPrefix(y);
  }

  lemma DropFirstJoin(x: string, t: string)
    requires |x| > 0
    ensures DropFirst(x + t) == DropFirst(x) + t
  {
    assert (x + t)[0] == x[0];
    if x[0] == '-' {
      assert (x + t)[1..] == x[1..] + t;
    }
  }

  /** Dropping a first hyphen from text ending otherwise leaves that end. */
  lemma DropFirstTail(x: string)
    requires |x| > 0 && x[|x| - 1] != '-'
    ensures DropLast(DropFirst(x)) == DropFirst(x)
  {
    var a := DropFirst(x);
    assert |a| > 0 ==> a[|a| - 1] == x[|x| - 1];
  }

  lemma DropLastJoin(p: string, y: string)
    requires |y| > 0
    ensures DropLast(p + ("-" + y)) == p + ("-" + DropLast(y))
  {
    var z := p + ("-" + y);
    assert z[|z| - 1] == y[|y| - 1];
    if y[|y| - 1] == '-' {
      assert z[..|z| - 1] == p + ("-" + y[..|y| - 1]);
    }
  }

  lemma DropLastPrefix(y: string)
    requires |y| > 0 && y[0] != '-'
    ensures DropFirst(y) == y
    ensures DropLast(y) == y[..|DropLast(y)|]
  {
  }

  /** Text with nothing to keep vanishes in front of anything. */
  lemma SanitiseDropsLeading(w: string, s: string, cs: CharSet)
    requires Kept(cs, w) == ""
    ensures Sanitise(w + s, cs) == Sanitise(s, cs)
  {
    if |w| == 0 {
      assert w + s == s;
    } else {
      var h, r := ReplaceOutside(w, cs), ReplaceOutside(s, cs);
      ReplaceAppend(w, s, cs);
      ReplaceBlank(w, cs);
      CollapseLeadingRun(h, r);
      var dr := "-" + r;
      assert dr[0] == '-' && dr[1..] == r;
      CollapseStep(dr);
      if |r| == 0 {
        assert dr == "-";
      } else if r[0] != '-' {
        assert dr[1] == r[0];
        StripLeading(CollapseHyphens(r));
      } else {
        assert dr[1] == r[0];
      }
    }
  }

  /** Text with nothing to keep vanishes behind anything. */
  lemma SanitiseDropsTrailing(s: string, w: string, cs: CharSet)
    requires Kept(cs, w) == ""
    ensures Sanitise(s + w, cs) == Sanitise(s, cs)
  {
    if |w| == 0 {
      assert s + w == s;
    } else {
      var r, h := ReplaceOutside(s, cs), ReplaceOutside(w, cs);
      ReplaceAppend(s, w, cs);
      ReplaceBlank(w, cs);
      CollapseTrailingRun(r, h);
      StripCollapseTrailing(r);
    }
  }

  /** One hyphen more at the end changes nothing once collapsed and stripped. */
  lemma StripCollapseTrailing(r: string)
    ensures StripHyphenEnds(CollapseHyphens(r + "-")) == StripHyphenEnds(CollapseHyphens(r))
  {
    if |r| == 0 {
      assert r + "-" == "-" + "";
      CollapseStep("-");
    } else if r[|r| - 1] == '-' {
      CollapseExtraHyphen(r);
    } else {
      CollapseAddHyphen(r);
      StripTrailing(CollapseHyphens(r));
    }
  }

  /** A hyphen behind a hyphen is absorbed by the collapse. */
  lemma CollapseExtraHyphen(r: string)
    requires |r| > 0 && r[|r| - 1] == '-'
    ensures CollapseHyphens(r + "-") == CollapseHyphens(r)
  {
    var r' := r[..|r| - 1];
    assert r == r' + "-";
    AppendAssoc(r', "-", "-");
    assert "-" + "-" == "--";
    CollapseTrailingRun(r', "--");
  }

  /** A hyphen behind anything else survives the collapse. */
  lemma CollapseAddHyphen(r: string)
    requires |r| > 0 && r[|r| - 1] != '-'
    ensures CollapseHyphens(r + "-") == CollapseHyphens(r) + "-"
    ensures |CollapseHyphens(r)| > 0 && CollapseHyphens(r)[|CollapseHyphens(r)| - 1] != '-'
  {
    CollapseAppend(r, "-");
    CollapseStep("-");
    CollapseFacts(r);
  }

  /** A run of characters outside the class between two allowed characters
      becomes exactly one hyphen, and the text on each side is sanitised on its
      own. */
  lemma SanitiseAroundRun(a: string, w: string, b: string, cs: CharSet)
    requires |a| > 0 && InSet(cs, a[|a| - 1])
    requires |w| > 0 && Kept(cs, w) == ""
    requires |b| > 0 && InSet(cs, b[0])
    ensures Sanitise(a + w + b, cs) == Sanitise(a, cs) + "-" + Sanitise(b, cs)
  {
    HyphenOutside(cs);
    var ra, h, rb := ReplaceOutside(a, cs), ReplaceOutside(w, cs), ReplaceOutside(b, cs);
    ReplaceAppend(a, w, cs);
    ReplaceAppend(a + w, b, cs);
    ReplaceBlank(w, cs);
    CollapseAroundRun(ra, h, rb);
    var ca, cb := CollapseHyphens(ra), CollapseHyphens(rb);
    CollapseFacts(ra);
    CollapseFacts(rb);
    StripAround(ca, cb);
    AppendAssoc(StripHyphenEnds(ca), "-", StripHyphenEnds(cb));
  }

  /** A run of hyphens between text that does not end and text that does not
      start with a hyphen collapses to one hyphen. */
  lemma CollapseAroundRun(x: string, h: string, y: string)
    requires |x| > 0 && x[|x| - 1] != '-'
    requires |h| > 0 && AllHyphens(h)
    requires |y| > 0 && y[0] != '-'
    ensures CollapseHyphens(x + h + y) == CollapseHyphens(x) + ("-" + CollapseHyphens(y))
  {
    AppendAssoc(x, h, y);
    CollapseAppend(x, h + y);
    CollapseLeadingRun(h, y);
    var dy := "-" + y;
    assert dy[0] == '-' && dy[1] == y[0] && dy[1..] == y;
    CollapseStep(dy);
  }

  /** Where the last allowed character of `s` ends: nothing after it is kept. */
  function KeptPrefix(cs: CharSet, s: string): (k: nat)
    ensures k <= |s|
    ensures k > 0 ==> InSet(cs, s[k - 1])
    ensures Kept(cs, s[k..]) == ""
    decreases |s|
  {
    if |s| == 0 then 0
    else if InSet(cs, s[|s| - 1]) then |s|
    else
      var k := KeptPrefix(cs, s[..|s| - 1]);
      assert s[k..] == s[..|s| - 1][k..] + [s[|s| - 1]];
      KeptAppend(cs, s[..|s| - 1][k..], [s[|s| - 1]]);
      k
  }

  /** Where the first allowed character of `s` is: nothing before it is kept. */
  function FirstKept(cs: CharSet, s: string): (j: nat)
    ensures j <= |s|
    ensures j < |s| ==> InSet(cs, s[j])
    ensures Kept(cs, s[..j]) == ""
    decreases |s|
  {
    if |s| == 0 || InSet(cs, s[0]) then 0
    else
      var j := FirstKept(cs, s[1..]);
      assert s[..j + 1] == [s[0]] + s[1..][..j];
      KeptCons(cs, s[0], s[1..][..j]);
      j + 1
  }

  /** A character outside the class between text with something to keep on
      each side becomes exactly one hyphen; the text on each side is sanitised
      on its own. */
  lemma SanitiseSplits(a: string, c: char, b: string, cs: CharSet)
    requires !InSet(cs, c) && Kept(cs, a) != "" && Kept(cs, b) != ""
    ensures Sanitise(a + [c] + b, cs) == Sanitise(a, cs) + "-" + Sanitise(b, cs)
  {
    var k := KeptPrefix(cs, a);
    var j := FirstKept(cs, b);
    assert a[0..] == a && b[..|b|] == b;
    assert k > 0 && j < |b|;
    var a1, a2, b1, b2 := a[..k], a[k..], b[..j], b[j..];
    var w := a2 + [c] + b1;
    BlankAround(cs, a2, c, b1);
    Regroup(a, c, b, k, j);
    assert a1[|a1| - 1] == a[k - 1] && b2[0] == b[j];
    SanitiseAroundRun(a1, w, b2, cs);
    SanitiseDropsTrailing(a1, a2, cs);
    SanitiseDropsLeading(b1, b2, cs);
  }

  /** Nothing kept on either side of a character outside the class: nothing kept. */
  lemma BlankAround(cs: CharSet, x: string, c: char, y: string)
    requires Kept(cs, x) == "" && !InSet(cs, c) && Kept(cs, y) == ""
    ensures |x + [c] + y| > 0 && Kept(cs, x + [c] + y) == ""
  {
    KeptAppend(cs, x, [c]);
    KeptAppend(cs, x + [c], y);
    KeptCons(cs, c, "");
    assert [c] + "" == [c];
  }

  /** Cutting `a` at `k` and `b` at `j` regroups `a + [c] + b`. */
  lemma Regroup(a: string, c: char, b: string, k: nat, j: nat)
    requires k <= |a| && j <= |b|
    ensures a == a[..k] + a[k..] && b == b[..j] + b[j..]
    ensures a + [c] + b == a[..k] + (a[k..] + [c] + b[..j]) + b[j..]
  {
  }

  /** `generateSlug` of `src/lib/posts.ts` (and the identical inline copy of the
      posts API route): lower-case the ASCII letters, then sanitise with
      `[a-z0-9가-힣]`. The result may be empty. */
  function GenerateSlug(title: string): (r: string)
    ensures Clean(r, SlugChars)
    ensures Kept(SlugChars, r) == Kept(SlugChars, Lower(title))
  {
    Sanitise(Lower(title), SlugChars)
  }

  /** Applying `generateSlug` to its own output changes nothing. */
  lemma GenerateSlugIdempotent(title: string)
    ensures GenerateSlug(GenerateSlug(title)) == GenerateSlug(title)
  {
    var s := GenerateSlug(title);
    assert Lower(s) == s;
    SanitiseClean(s, SlugChars);
  }

  /** A character that lower-cases to one outside `[a-z0-9가-힣]`, between
      titles that each have something to keep, becomes exactly one hyphen of
      the slug. */
  lemma GenerateSlugSplits(a: string, c: char, b: string)
    requires !InSet(SlugChars, LowerChar(c))
    requires Kept(SlugChars, Lower(a)) != "" && Kept(SlugChars, Lower(b)) != ""
    ensures GenerateSlug(a + [c] + b) == GenerateSlug(a) + "-" + GenerateSlug(b)
  {
    LowerAppend(a + [c], b);
    LowerAppend(a, [c]);
    assert Lower([c]) == [LowerChar(c)];
    SanitiseSplits(Lower(a), LowerChar(c), Lower(b), SlugChars);
  }
}
