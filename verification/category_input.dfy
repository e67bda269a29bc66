/** The category tag editor (`src/components/form/category-input/CategoryInput.tsx`
    and its older copy `src/components/CategoryInput.tsx`, which behave the
    same): add the trimmed input unless a category equal to it up to letter case
    is already there, remove a category by exact name, and add on Enter unless
    an IME composition is in progress. */
module CategoryInput {
  import opened Text
  import opened Seqs

  /** The categories passed in by the parent and the text box's value. */
  datatype Field = Field(categories: seq<string>, input: string)

  /** No two categories are equal after lower-casing. */
  predicate NoCaseDuplicates(cats: seq<string>) {
    forall i, j :: 0 <= i < j < |cats| ==> Lower(cats[i]) != Lower(cats[j])
  }

  /** Every category is non-empty and trimmed. */
  predicate AllTrimmed(cats: seq<string>) {
    forall i :: 0 <= i < |cats| ==> cats[i] != "" && Trim(cats[i]) == cats[i]
  }

  /** The invariant the editor keeps on the categories it produces. */
  predicate Good(cats: seq<string>) {
    NoCaseDuplicates(cats) && AllTrimmed(cats)
  }

  /** `categories.some(c => c.toLowerCase() === value.toLowerCase())`. */
  predicate IsDuplicate(cats: seq<string>, value: string) {
    exists i :: 0 <= i < |cats| && Lower(cats[i]) == Lower(value)
  }

  /** Trimming a trimmed string changes nothing. */
  lemma TrimTwice(s: string)
    ensures Trim(Trim(s)) == Trim(s)
  {
    TrimSpec(s);
    TrimIdentity(Trim(s));
  }

  /** `addCategory`. An input that trims to nothing changes nothing, not even
      the text box; otherwise the text box is cleared and the trimmed value is
      appended exactly when no category matches it up to case. */
  function AddCategory(f: Field): (r: Field)
    ensures Trim(f.input) == "" ==> r == f
    ensures Trim(f.input) != "" ==> r.input == ""
    ensures Trim(f.input) != "" && !IsDuplicate(f.categories, Trim(f.input)) ==>
      r.categories == f.categories + [Trim(f.input)]
    ensures Trim(f.input) == "" || IsDuplicate(f.categories, Trim(f.input)) ==>
      r.categories == f.categories
    ensures Good(f.categories) ==> Good(r.categories)
  {
    var value := Trim(f.input);
    if value == "" then f
    else if IsDuplicate(f.categories, value) then Field(f.categories, "")
    else
      TrimTwice(f.input);
      AppendKeepsGood(f.categories, value);
      Field(f.categories + [value], "")
  }

  /** Appending a trimmed, non-empty value that matches no category up to case
      keeps the invariant. */
  lemma AppendKeepsGood(cats: seq<string>, value: string)
    requires value != "" && Trim(value) == value && !IsDuplicate(cats, value)
    ensures Good(cats) ==> Good(cats + [value])
  {
    if Good(cats) {
      var r := cats + [value];
      forall i, j | 0 <= i < j < |r| ensures Lower(r[i]) != Lower(r[j]) {
        assert r[i] == cats[i];
        if j < |cats| {
          assert r[j] == cats[j];
        }
      }
      forall i | 0 <= i < |r| ensures r[i] != "" && Trim(r[i]) == r[i] {
        if i < |cats| {
          assert r[i] == cats[i];
        }
      }
    }
  }

  /** `removeCategory(name)`: drop every category equal to `name`, keeping the
      others in order. The text box is untouched. */
  function RemoveCategory(f: Field, name: string): (r: Field)
    ensures r.input == f.input
    ensures IsSubsequence(r.categories, f.categories)
    ensures forall c :: c in r.categories <==> c in f.categories && c != name
    ensures forall c :: multiset(r.categories)[c] == if c == name then 0 else multiset(f.categories)[c]
    ensures Good(f.categories) ==> Good(r.categories)
  {
    var cats := Filter(c => c != name, f.categories);
    if Good(f.categories) then
      FilterKeepsGood(c => c != name, f.categories);
      Field(cats, f.input)
    else Field(cats, f.input)
  }

  /** Filtering keeps the invariant: it only drops categories. */
  lemma FilterKeepsGood(keep: string -> bool, cats: seq<string>)
    requires Good(cats)
    ensures Good(Filter(keep, cats))
  {
    FilterNoCaseDuplicates(keep, cats);
    FilterAllTrimmed(keep, cats);
  }

  lemma FilterAllTrimmed(keep: string -> bool, cats: seq<string>)
    requires AllTrimmed(cats)
    ensures AllTrimmed(Filter(keep, cats))
  {
    var r := Filter(keep, cats);
    forall i | 0 <= i < |r| ensures r[i] != "" && Trim(r[i]) == r[i] {
      var c := r[i];
      assert c in cats;
      var k :| 0 <= k < |cats| && cats[k] == c;
    }
  }

  lemma {:induction false} FilterNoCaseDuplicates(keep: string -> bool, cats: seq<string>)
    requires NoCaseDuplicates(cats)
    ensures NoCaseDuplicates(Filter(keep, cats))
    decreases |cats|
  {
    if |cats| > 0 {
      var rest := cats[1..];
      assert NoCaseDuplicates(rest) by {
        forall i, j | 0 <= i < j < |rest| ensures Lower(rest[i]) != Lower(rest[j]) {
          assert rest[i] == cats[i + 1] && rest[j] == cats[j + 1];
        }
      }
      FilterNoCaseDuplicates(keep, rest);
      if keep(cats[0]) {
        var fr := Filter(keep, rest);
        forall c | c in fr ensures Lower(cats[0]) != Lower(c) {
          var k :| 0 <= k < |rest| && rest[k] == c;
          assert cats[k + 1] == c;
        }
        NoCaseDuplicatesCons(cats[0], fr);
      }
    }
  }

  /** A category whose lower case differs from every other one's can go in
      front. */
  lemma NoCaseDuplicatesCons(x: string, rest: seq<string>)
    requires NoCaseDuplicates(rest)
    requires forall c :: c in rest ==> Lower(x) != Lower(c)
    ensures NoCaseDuplicates([x] + rest)
  {
    var r := [x] + rest;
    forall i, j | 0 <= i < j < |r| ensures Lower(r[i]) != Lower(r[j]) {
      assert r[j] == rest[j - 1];
      if i > 0 {
        assert r[i] == rest[i - 1];
      }
    }
  }

  /** `handleKeyDown`: Enter adds, unless an IME composition is in progress;
      any other key leaves the field alone. */
  function HandleKeyDown(f: Field, key: string, composing: bool): (r: Field)
    ensures composing || key != "Enter" ==> r == f
    ensures !composing && key == "Enter" ==> r == AddCategory(f)
  {
    if composing then f
    else if key == "Enter" then AddCategory(f)
    else f
  }

  /** Categories free of case-insensitive duplicates are free of exact
      duplicates, so each one can serve as its tag's React key. */
  lemma GoodIsDistinct(cats: seq<string>)
    requires NoCaseDuplicates(cats)
    ensures Distinct(cats)
  {
    forall i, j | 0 <= i < j < |cats| ensures cats[i] != cats[j] {
      assert Lower(cats[i]) != Lower(cats[j]);
    }
  }

  /** Removing a category just added gives back the categories from before. */
  lemma AddThenRemove(f: Field)
    requires Trim(f.input) != "" && !IsDuplicate(f.categories, Trim(f.input))
    ensures RemoveCategory(AddCategory(f), Trim(f.input)).categories == f.categories
  {
    var value := Trim(f.input);
    var keep := (c: string) => c != value;
    assert forall i :: 0 <= i < |f.categories| ==> keep(f.categories[i]);
    FilterAll(keep, f.categories);
    FilterAppendRejected(keep, f.categories, value);
  }

  /** Filtering `s + [x]` with a test that rejects `x` filters `s` alone. */
  lemma {:induction false} FilterAppendRejected(keep: string -> bool, s: seq<string>, x: string)
    requires !keep(x)
    ensures Filter(keep, s + [x]) == Filter(keep, s)
    decreases |s|
  {
    if |s| == 0 {
      assert s + [x] == [x];
    } else {
      assert (s + [x])[1..] == s[1..] + [x];
      FilterAppendRejected(keep, s[1..], x);
    }
  }

  /** Adding a value that differs only in case from a category is refused. */
  lemma CaseVariantRefused(cats: seq<string>, i: nat, input: string)
    requires i < |cats| && Trim(input) != "" && Lower(Trim(input)) == Lower(cats[i])
    ensures AddCategory(Field(cats, input)) == Field(cats, "")
  {
  }
}
