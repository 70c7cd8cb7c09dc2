/** The search filter of the page script: the records whose `className` or
    `full_name`, lower-cased, contains the trimmed and lower-cased value of the
    search box. */
module Search {
  import opened Text
  import opened Seqs
  import opened Scanner

  /** `searchInput.value.trim().toLowerCase()`. */
  function SearchTerm(input: string): string
  {
    Lower(Trim(input))
  }

  /** The filter's test for one record and an already normalised term. */
  predicate Matches(icon: Icon, term: string)
  {
    Contains(Lower(icon.className), term) || Contains(Lower(icon.fullName), term)
  }

  /** The filter's callback for one term. */
  function Matcher(term: string): Icon -> bool
  {
    icon => Matches(icon, term)
  }

  /** `allIcons.filter(...)` for the current value of the search box. */
  function FilterIcons(icons: seq<Icon>, input: string): seq<Icon>
  {
    Filter(icons, Matcher(SearchTerm(input)))
  }

  /** The filter returns the records that match the term, at strictly
      increasing positions of the manifest, and every matching record. */
  lemma FilterIconsSelects(icons: seq<Icon>, input: string)
    ensures var r, idx, term := FilterIcons(icons, input), KeptIndices(icons, Matcher(SearchTerm(input))), SearchTerm(input);
      && |r| == |idx|
      && (forall k :: 0 <= k < |idx| ==> 0 <= idx[k] < |icons| && r[k] == icons[idx[k]])
      && (forall a, b :: 0 <= a < b < |idx| ==> idx[a] < idx[b])
      && (forall j :: 0 <= j < |icons| ==> (j in idx <==> Matches(icons[j], term)))
  {
    FilterIndices(icons, Matcher(SearchTerm(input)));
  }

  /** An empty search box, or one holding only white space, keeps every record. */
  lemma BlankSearchKeepsAll(icons: seq<Icon>, input: string)
    requires Trim(input) == ""
    ensures FilterIcons(icons, input) == icons
  {
    assert SearchTerm(input) == "";
    forall k | 0 <= k < |icons| ensures Matcher(SearchTerm(input))(icons[k]) {
      ContainsEmpty(Lower(icons[k].className));
    }
    FilterKeepsAll(icons, Matcher(SearchTerm(input)));
  }

  /** The filter is empty exactly when no record matches the term. */
  lemma FilterIconsEmptyIff(icons: seq<Icon>, input: string)
    ensures FilterIcons(icons, input) == [] <==>
      forall k :: 0 <= k < |icons| ==> !Matches(icons[k], SearchTerm(input))
  {
    FilterEmptyIff(icons, Matcher(SearchTerm(input)));
  }

  /** The search ignores the letter case of what is typed. */
  lemma SearchIgnoresCase(icons: seq<Icon>, input: string)
    ensures FilterIcons(icons, Lower(input)) == FilterIcons(icons, input)
  {
    TrimLowerCommute(input);
    LowerIdempotent(Trim(input));
    assert SearchTerm(Lower(input)) == SearchTerm(input);
  }

  /** The search ignores white space around what is typed. */
  lemma SearchIgnoresSurroundingSpace(icons: seq<Icon>, input: string)
    ensures FilterIcons(icons, Trim(input)) == FilterIcons(icons, input)
  {
    TrimIdempotent(input);
    assert SearchTerm(Trim(input)) == SearchTerm(input);
  }
}
