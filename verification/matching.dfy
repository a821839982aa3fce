/**
 * The search filter (country-selector.tsx:53-91): every country of the full
 * list is classified as an exact match, a partial match or no match against
 * the raw search input; exact matches sorted by `shortName` come before partial
 * matches sorted by `shortName`. The hot list is never searched.
 *
 * Two shapes of the result are modelled: the letter-grouped one the
 * all-in-one component builds (`LegacyDisplayCountries`, exactly as written)
 * and the single search bucket keyed by the empty string that the composable
 * widget uses (`DisplayCountries`).
 */
module Matching {
  import opened Options
  import opened Text
  import opened Countries
  import opened CountryUtils
  import Sorting

  datatype MatchKind = Exact | Partial | NoMatch

  /**
   * `code` equals the input verbatim, or a lower-cased name field equals the
   * lower-cased input.
   */
  predicate ExactMatch(c: Country, q: string) {
    || c.code == q
    || Lower(c.zhName) == Lower(q)
    || Lower(c.enName) == Lower(q)
    || Lower(c.shortName) == Lower(q)
  }

  /** Some field contains the input (`code` verbatim, names lower-cased). */
  predicate FieldContains(c: Country, q: string) {
    || Contains(c.code, q)
    || Contains(Lower(c.zhName), Lower(q))
    || Contains(Lower(c.enName), Lower(q))
    || Contains(Lower(c.shortName), Lower(q))
  }

  lemma ExactImpliesContains(c: Country, q: string)
    requires ExactMatch(c, q)
    ensures FieldContains(c, q)
  {
    if c.code == q {
      ContainsSelf(q);
    } else {
      ContainsSelf(Lower(q));
    }
  }

  /** The `if (isExactMatch) … else if (…includes…)` chain. */
  function Classify(c: Country, q: string): (k: MatchKind)
    ensures k == Exact <==> ExactMatch(c, q)
    ensures k != NoMatch <==> FieldContains(c, q)
  {
    if ExactMatch(c, q) then
      ExactImpliesContains(c, q);
      Exact
    else if FieldContains(c, q) then Partial
    else NoMatch
  }

  /** The countries of `cs` of one kind, in list order (`exactMatches` / `partialMatches`). */
  function OfKind(cs: seq<Country>, q: string, kind: MatchKind): (r: seq<Country>)
    ensures multiset(r) <= multiset(cs)
  {
    if |cs| == 0 then []
    else
      assert cs == [cs[0]] + cs[1..];
      (if Classify(cs[0], q) == kind then [cs[0]] else []) + OfKind(cs[1..], q, kind)
  }

  lemma {:induction false} OfKindMembers(cs: seq<Country>, q: string, kind: MatchKind, c: Country)
    ensures c in OfKind(cs, q, kind) <==> c in cs && Classify(c, q) == kind
  {
    if |cs| > 0 {
      assert cs == [cs[0]] + cs[1..];
      OfKindMembers(cs[1..], q, kind, c);
    }
  }

  lemma OfKindCons(cs: seq<Country>, q: string, kind: MatchKind)
    requires |cs| > 0
    ensures multiset(OfKind(cs, q, kind))
         == (if Classify(cs[0], q) == kind then multiset{cs[0]} else multiset{}) + multiset(OfKind(cs[1..], q, kind))
  {
  }

  /** Every country falls in exactly one of the three kinds. */
  lemma {:induction false} KindsPartition(cs: seq<Country>, q: string)
    ensures multiset(OfKind(cs, q, Exact)) + multiset(OfKind(cs, q, Partial)) + multiset(OfKind(cs, q, NoMatch))
         == multiset(cs)
  {
    if |cs| > 0 {
      var h, t := cs[0], cs[1..];
      assert multiset(cs) == multiset{h} + multiset(t) by {
        assert cs == [h] + t;
      }
      KindsPartition(t, q);
      OfKindCons(cs, q, Exact);
      OfKindCons(cs, q, Partial);
      OfKindCons(cs, q, NoMatch);
    }
  }

  /**
   * The order a search result promises: an exact match never follows a partial
   * one, and two matches of the same kind are ordered by `shortName`.
   */
  predicate InOrder(a: Country, b: Country, q: string) {
    && (Classify(b, q) == Exact ==> Classify(a, q) == Exact)
    && (Classify(a, q) == Classify(b, q) ==> LexLe(a.shortName, b.shortName))
  }

  predicate Tiered(r: seq<Country>, q: string) {
    forall i, j | 0 <= i < j < |r| :: InOrder(r[i], r[j], q)
  }

  lemma SortedOfKind(cs: seq<Country>, q: string, kind: MatchKind, x: Country)
    requires x in SortCountries(OfKind(cs, q, kind))
    ensures x in cs && Classify(x, q) == kind
  {
    assert x in multiset(SortCountries(OfKind(cs, q, kind)));
    OfKindMembers(cs, q, kind, x);
  }

  /** `[...sortCountries(exactMatches), ...sortCountries(partialMatches)]`. */
  function SearchResults(cs: seq<Country>, q: string): (r: seq<Country>)
    ensures forall c :: c in r <==> c in cs && FieldContains(c, q)
    ensures multiset(r) == multiset(OfKind(cs, q, Exact)) + multiset(OfKind(cs, q, Partial))
    ensures Tiered(r, q)
  {
    var ex := SortCountries(OfKind(cs, q, Exact));
    var pa := SortCountries(OfKind(cs, q, Partial));
    var r := ex + pa;
    assert forall i, j | 0 <= i < j < |r| :: InOrder(r[i], r[j], q) by {
      forall i, j | 0 <= i < j < |r| ensures InOrder(r[i], r[j], q) {
        if j < |ex| {
          SortedOfKind(cs, q, Exact, r[i]);
          SortedOfKind(cs, q, Exact, r[j]);
          assert LexLe(ShortNameOf(ex[i]), ShortNameOf(ex[j]));
        } else if i >= |ex| {
          SortedOfKind(cs, q, Partial, r[i]);
          SortedOfKind(cs, q, Partial, r[j]);
          assert r[i] == pa[i - |ex|] && r[j] == pa[j - |ex|];
          assert LexLe(ShortNameOf(pa[i - |ex|]), ShortNameOf(pa[j - |ex|]));
        } else {
          SortedOfKind(cs, q, Exact, r[i]);
          assert r[j] == pa[j - |ex|];
          SortedOfKind(cs, q, Partial, r[j]);
        }
      }
    }
    assert forall c :: c in r <==> c in cs && FieldContains(c, q) by {
      forall c ensures c in r <==> c in cs && FieldContains(c, q) {
        assert c in ex <==> c in multiset(OfKind(cs, q, Exact));
        assert c in pa <==> c in multiset(OfKind(cs, q, Partial));
        OfKindMembers(cs, q, Exact, c);
        OfKindMembers(cs, q, Partial, c);
      }
    }
    r
  }

  lemma SearchResultsNamed(cs: seq<Country>, q: string)
    requires AllNamed(cs)
    ensures AllNamed(SearchResults(cs, q))
  {
  }

  /**
   * `displayCountries` of the all-in-one component: a blank input groups the
   * whole sorted list; otherwise the tiered search results are grouped by letter.
   */
  function LegacyDisplayCountries(cs: seq<Country>, q: string): seq<Group>
    requires AllNamed(cs)
  {
    if !IsBlank(q) then
      SearchResultsNamed(cs, q);
      GroupCountriesByLetter(SearchResults(cs, q))
    else
      var sorted := SortCountries(cs);
      PermutationKeepsNamed(cs, sorted);
      GroupCountriesByLetter(sorted)
  }

  /**
   * `displayCountries` of the composable widget: a blank input groups the whole
   * sorted list by letter; otherwise all results sit in one bucket keyed "".
   */
  function DisplayCountries(cs: seq<Country>, q: string): seq<Group>
    requires AllNamed(cs)
  {
    if !IsBlank(q) then
      [Group("", SearchResults(cs, q))]
    else
      var sorted := SortCountries(cs);
      PermutationKeepsNamed(cs, sorted);
      GroupCountriesByLetter(sorted)
  }

  /**
   * With a blank input both variants show every country of the full list once,
   * grouped by letter, each group sorted by `shortName`.
   */
  lemma BlankSearchGroupsWholeList(cs: seq<Country>, q: string)
    requires AllNamed(cs) && IsBlank(q)
    ensures DisplayCountries(cs, q) == LegacyDisplayCountries(cs, q)
    ensures multiset(Flatten(DisplayCountries(cs, q))) == multiset(cs)
    ensures forall i | 0 <= i < |DisplayCountries(cs, q)| ::
      Sorting.Sorted(DisplayCountries(cs, q)[i].members, ShortNameOf)
  {
    var sorted := SortCountries(cs);
    PermutationKeepsNamed(cs, sorted);
    var gs := GroupCountriesByLetter(sorted);
    var byName := (a: Country, b: Country) => LexLe(a.shortName, b.shortName);
    assert PairwiseOrdered(sorted, byName) by {
      assert Sorting.Sorted(sorted, ShortNameOf);
    }
    forall i | 0 <= i < |gs| ensures Sorting.Sorted(gs[i].members, ShortNameOf) {
      InLetterKeepsOrder(sorted, gs[i].letter, byName);
      assert PairwiseOrdered(gs[i].members, byName);
    }
  }

  /**
   * The all-in-one component's search result: the groups hold exactly the
   * matches, and inside every letter group exact matches come first and each
   * kind is sorted by `shortName`.
   */
  lemma LegacySearchGroupsTiered(cs: seq<Country>, q: string)
    requires AllNamed(cs) && !IsBlank(q)
    ensures multiset(Flatten(LegacyDisplayCountries(cs, q))) == multiset(SearchResults(cs, q))
    ensures forall i | 0 <= i < |LegacyDisplayCountries(cs, q)| :: Tiered(LegacyDisplayCountries(cs, q)[i].members, q)
  {
    var r := SearchResults(cs, q);
    SearchResultsNamed(cs, q);
    var gs := GroupCountriesByLetter(r);
    var tier := (a: Country, b: Country) => InOrder(a, b, q);
    assert PairwiseOrdered(r, tier);
    forall i | 0 <= i < |gs| ensures Tiered(gs[i].members, q) {
      InLetterKeepsOrder(r, gs[i].letter, tier);
      assert PairwiseOrdered(gs[i].members, tier);
    }
  }

  /** A non-blank input yields exactly one bucket, keyed "", holding the search results. */
  lemma SearchBucket(cs: seq<Country>, q: string)
    requires AllNamed(cs) && !IsBlank(q)
    ensures DisplayCountries(cs, q) == [Group("", SearchResults(cs, q))]
  {
  }

  lemma NoResultsIffNoMatch(cs: seq<Country>, q: string)
    ensures |SearchResults(cs, q)| == 0 <==> forall c | c in cs :: !FieldContains(c, q)
  {
    var r := SearchResults(cs, q);
    if |r| > 0 {
      assert r[0] in r;
    } else {
      forall c | c in cs ensures !FieldContains(c, q) {
        assert FieldContains(c, q) ==> c in r;
      }
    }
  }

  /** `Object.keys(displayCountries).length > 0` fails exactly when no field of any country contains the input. */
  lemma LegacyNoGroupsIffNoMatch(cs: seq<Country>, q: string)
    requires AllNamed(cs) && !IsBlank(q)
    ensures |LegacyDisplayCountries(cs, q)| == 0 <==> forall c | c in cs :: !FieldContains(c, q)
  {
    var r := SearchResults(cs, q);
    SearchResultsNamed(cs, q);
    GroupEmptyIffInputEmpty(r);
    NoResultsIffNoMatch(cs, q);
  }

  /** The single search bucket is empty exactly when no field of any country contains the input. */
  lemma NoMemberIffNoMatch(cs: seq<Country>, q: string)
    requires AllNamed(cs) && !IsBlank(q)
    ensures !AnyMember(DisplayCountries(cs, q)) <==> forall c | c in cs :: !FieldContains(c, q)
  {
    var r := SearchResults(cs, q);
    SearchBucket(cs, q);
    var gs := [Group("", r)];
    assert AnyMember(gs) <==> |r| > 0 by {
      assert gs[0].members == r;
    }
    NoResultsIffNoMatch(cs, q);
  }

  /**
   * In the single-bucket view the first country is a match that is ordered
   * before every other match: an exact match whenever one exists, and the one
   * with the smallest `shortName` among its kind.
   */
  lemma FirstMatchPrefersExact(cs: seq<Country>, q: string, e: Country)
    requires AllNamed(cs) && !IsBlank(q)
    requires e in cs && FieldContains(e, q)
    ensures FirstCountry(DisplayCountries(cs, q)).Some?
    ensures var f := FirstCountry(DisplayCountries(cs, q)).value;
      f in cs && FieldContains(f, q) && InOrder(f, e, q)
  {
    var r := SearchResults(cs, q);
    assert DisplayCountries(cs, q) == [Group("", r)];
    assert e in r;
    FirstOfOneBucket([Group("", r)], r);
    assert r[0] in r;
    var m :| 0 <= m < |r| && r[m] == e;
    if m == 0 {
      LexLeReflexive(e.shortName);
    } else {
      assert InOrder(r[0], r[m], q);
    }
  }

  /** Two catalog entries used to exhibit the all-in-one component's Enter behaviour. */
  const India := Country("印度", "India", "IN", "I", "91", 1)
  const Argentina := Country("阿根廷", "Argentina", "AR", "A", "54", 2)

  lemma SampleClassified()
    ensures !IsBlank("in")
    ensures Classify(India, "in") == Exact
    ensures Classify(Argentina, "in") == Partial
  {
    var q := "in";
    assert !IsSpace(q[0]);
    assert Lower("IN") == q;
    assert Lower("Argentina")[6..8] == q;
    assert OccursAt(Lower("Argentina"), q, 6);
    assert Lower("AR") != q by { assert Lower("AR")[0] == 'a'; }
    assert Lower("阿根廷") != q by { assert |Lower("阿根廷")| == 3; }
    assert Lower("Argentina") != q by { assert |Lower("Argentina")| == 9; }
  }

  lemma SampleExact()
    ensures OfKind([Argentina, India], "in", Exact) == [India]
  {
    SampleClassified();
    assert [Argentina, India][1..] == [India];
    assert OfKind([India], "in", Exact) == [India] by {
      assert [India][1..] == [];
    }
  }

  lemma SamplePartial()
    ensures OfKind([Argentina, India], "in", Partial) == [Argentina]
  {
    SampleClassified();
    assert [Argentina, India][1..] == [India];
    assert OfKind([India], "in", Partial) == [] by {
      assert [India][1..] == [];
    }
  }

  lemma SortSingleton(x: Country)
    ensures SortCountries([x]) == [x]
  {
    var r := SortCountries([x]);
    assert |r| == |multiset(r)| == 1;
    assert r[0] in multiset(r);
  }

  lemma SampleResults()
    ensures SearchResults([Argentina, India], "in") == [India, Argentina]
  {
    SampleExact();
    SamplePartial();
    SortSingleton(India);
    SortSingleton(Argentina);
  }

  /** In the single-bucket view the same search lists India, the exact match, first. */
  lemma SampleBucket(cs: seq<Country>, q: string)
    requires cs == [Argentina, India] && q == "in"
    ensures AllNamed(cs) && !IsBlank(q) && DisplayCountries(cs, q) == [Group("", [India, Argentina])]
  {
    SampleClassified();
    SampleResults();
    SearchBucket(cs, q);
  }

  lemma SampleKeys(r: seq<Country>)
    requires r == [India, Argentina]
    ensures AllNamed(r) && KeysOf(r) == {"A", "I"}
  {
    assert LetterKey(Argentina) == "A" && LetterKey(India) == "I";
  }

  lemma SampleLetterA(r: seq<Country>)
    requires r == [India, Argentina]
    ensures AllNamed(r) && InLetter(r, "A") == [Argentina]
  {
    assert LetterKey(Argentina) == "A" && LetterKey(India) == "I";
    assert r[..1] == [India];
    assert InLetter([India], "A") == [] by {
      assert [India][..0] == [];
    }
    assert InLetter(r, "A") == InLetter(r[..1], "A") + [Argentina];
  }

  lemma SampleLetterOrder()
    ensures LexLe("A", "A") && LexLe("A", "I")
  {
    LexLeReflexive("A");
  }

  lemma SampleSmallestGroup(gs: seq<Group>)
    requires DistinctLetters(gs) && forall a | 0 <= a < |gs| :: |gs[a].members| > 0
    requires Letters(gs) == {"A", "I"}
    requires forall a | 0 <= a < |gs| && gs[a].letter == "A" :: gs[a].members == [Argentina]
    ensures FirstCountry(gs) == Some(Argentina)
  {
    assert "A" in Letters(gs);
    var i :| 0 <= i < |gs| && gs[i].letter == "A";
    SampleLetterOrder();
    forall j | 0 <= j < |gs| ensures LexLe("A", gs[j].letter) {
      assert gs[j].letter in Letters(gs);
    }
    FirstCountryOfSmallestKey(gs, i);
  }

  lemma SampleFirst(r: seq<Country>)
    requires r == [India, Argentina]
    ensures AllNamed(r) && FirstCountry(GroupCountriesByLetter(r)) == Some(Argentina)
  {
    SampleKeys(r);
    SampleLetterA(r);
    var gs := GroupCountriesByLetter(r);
    assert WellGrouped(r, gs);
    SampleSmallestGroup(gs);
  }

  /**
   * As written, the all-in-one component groups search results by letter and
   * Enter takes the head of the smallest letter: typing "in" with India (an
   * exact match on `shortName`) and Argentina (a partial match on "Argentina")
   * commits Argentina.
   */
  lemma LegacyFirstCanBePartial()
    ensures ExactMatch(India, "in") && !ExactMatch(Argentina, "in")
    ensures FirstCountry(LegacyDisplayCountries([Argentina, India], "in")) == Some(Argentina)
  {
    SampleClassified();
    SampleResults();
    SampleFirst([India, Argentina]);
  }
}
