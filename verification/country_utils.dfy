/**
 * `sortCountries` and `groupCountriesByLetter` (utils/countryUtils.tsx:9-31)
 * and the "first country" pick over a grouped view that `getFirstCountry`
 * performs (country-selector.tsx:178-182, components/Root.tsx:131-135).
 *
 * A `Record<string, Country[]>` is modelled as a sequence of groups in the
 * order their keys were first inserted, each holding the countries pushed
 * into it.
 */
module CountryUtils {
  import opened Options
  import opened Text
  import opened Countries
  import Sorting

  function ShortNameOf(c: Country): string {
    c.shortName
  }

  /** Sorted by `shortName`, stable, a permutation of the input. */
  function SortCountries(cs: seq<Country>): (r: seq<Country>)
    ensures multiset(r) == multiset(cs)
    ensures Sorting.Sorted(r, ShortNameOf)
    ensures forall n :: Sorting.WithKey(r, ShortNameOf, n) == Sorting.WithKey(cs, ShortNameOf, n)
  {
    var r := Sorting.Sort(cs, ShortNameOf);
    assert forall n :: Sorting.WithKey(r, ShortNameOf, n) == Sorting.WithKey(cs, ShortNameOf, n) by {
      forall n ensures Sorting.WithKey(r, ShortNameOf, n) == Sorting.WithKey(cs, ShortNameOf, n) {
        Sorting.SortIsStable(cs, ShortNameOf, n);
      }
    }
    r
  }

  lemma SortCountriesIdempotent(cs: seq<Country>)
    ensures SortCountries(SortCountries(cs)) == SortCountries(cs)
  {
    Sorting.SortIdempotent(cs, ShortNameOf);
  }

  /** A permutation of a named list is named. */
  lemma PermutationKeepsNamed(cs: seq<Country>, r: seq<Country>)
    requires AllNamed(cs) && multiset(r) == multiset(cs)
    ensures AllNamed(r)
  {
    forall c | c in r ensures |c.shortName| > 0 {
      assert c in multiset(r);
    }
  }

  datatype Group = Group(letter: string, members: seq<Country>)

  function LetterOf(g: Group): string {
    g.letter
  }

  /** `country.shortName[0].toUpperCase()`. */
  function LetterKey(c: Country): (k: string)
    requires |c.shortName| > 0
    ensures |k| == 1
  {
    [UpperChar(c.shortName[0])]
  }

  /** The countries of `cs` whose key is `k`, in input order. */
  function InLetter(cs: seq<Country>, k: string): seq<Country>
    requires AllNamed(cs)
  {
    if |cs| == 0 then []
    else
      var last := cs[|cs| - 1];
      InLetter(cs[..|cs| - 1], k) + (if LetterKey(last) == k then [last] else [])
  }

  lemma {:induction false} InLetterMembers(cs: seq<Country>, k: string, c: Country)
    requires AllNamed(cs)
    ensures c in InLetter(cs, k) <==> (c in cs && LetterKey(c) == k)
  {
    if |cs| > 0 {
      var last := cs[|cs| - 1];
      assert cs == cs[..|cs| - 1] + [last];
      InLetterMembers(cs[..|cs| - 1], k, c);
    }
  }

  /** All groups' members, concatenated in group order. */
  function Flatten(gs: seq<Group>): seq<Country> {
    if |gs| == 0 then [] else gs[0].members + Flatten(gs[1..])
  }

  function Letters(gs: seq<Group>): set<string> {
    set g | g in gs :: g.letter
  }

  function KeysOf(cs: seq<Country>): set<string>
    requires AllNamed(cs)
  {
    set c | c in cs :: LetterKey(c)
  }

  /**
   * `gs` is the grouping of `cs`: one group per key that occurs, distinct keys,
   * each group holding exactly the countries with its key in input order, and
   * together the groups hold every country exactly once.
   */
  predicate WellGrouped(cs: seq<Country>, gs: seq<Group>)
    requires AllNamed(cs)
  {
    && DistinctLetters(gs)
    && (forall i | 0 <= i < |gs| :: gs[i].members == InLetter(cs, gs[i].letter))
    && (forall i | 0 <= i < |gs| :: |gs[i].members| > 0)
    && Letters(gs) == KeysOf(cs)
    && multiset(Flatten(gs)) == multiset(cs)
  }

  /** The index of the group keyed `k`: `groups[letter]`. */
  function FindGroup(gs: seq<Group>, k: string): (r: Option<nat>)
    ensures r.Some? ==> r.value < |gs| && gs[r.value].letter == k
    ensures r.None? ==> forall i | 0 <= i < |gs| :: gs[i].letter != k
  {
    if |gs| == 0 then None
    else if gs[0].letter == k then Some(0)
    else match FindGroup(gs[1..], k)
      case None => None
      case Some(i) => Some(i + 1)
  }

  /** One iteration of the `forEach`: push onto an existing group or open a new one at the end. */
  function AddToGroup(gs: seq<Group>, c: Country): seq<Group>
    requires |c.shortName| > 0
  {
    var k := LetterKey(c);
    match FindGroup(gs, k)
    case Some(i) => gs[i := Group(k, gs[i].members + [c])]
    case None => gs + [Group(k, [c])]
  }

  lemma {:induction false} FlattenAppend(gs: seq<Group>, g: Group)
    ensures Flatten(gs + [g]) == Flatten(gs) + g.members
  {
    if |gs| > 0 {
      assert (gs + [g])[1..] == gs[1..] + [g];
      FlattenAppend(gs[1..], g);
    }
  }

  lemma {:induction false} FlattenPush(gs: seq<Group>, i: nat, c: Country)
    requires i < |gs|
    ensures multiset(Flatten(gs[i := Group(gs[i].letter, gs[i].members + [c])]))
         == multiset(Flatten(gs)) + multiset{c}
  {
    var g' := Group(gs[i].letter, gs[i].members + [c]);
    var gs' := gs[i := g'];
    assert Flatten(gs') == gs'[0].members + Flatten(gs'[1..]);
    assert Flatten(gs) == gs[0].members + Flatten(gs[1..]);
    if i == 0 {
      assert gs'[1..] == gs[1..];
      assert multiset(gs'[0].members) == multiset(gs[0].members) + multiset{c};
    } else {
      var tail := gs[1..];
      assert gs'[1..] == tail[i - 1 := g'];
      assert tail[i - 1] == gs[i];
      FlattenPush(tail, i - 1, c);
      assert gs'[0] == gs[0];
    }
  }

  lemma {:induction false} InLetterOfAbsentKey(cs: seq<Country>, k: string)
    requires AllNamed(cs) && k !in KeysOf(cs)
    ensures InLetter(cs, k) == []
  {
    if |cs| > 0 {
      var init := cs[..|cs| - 1];
      assert KeysOf(init) <= KeysOf(cs);
      InLetterOfAbsentKey(init, k);
    }
  }

  lemma InLetterSnoc(cs: seq<Country>, c: Country, k: string)
    requires AllNamed(cs + [c])
    ensures AllNamed(cs)
    ensures InLetter(cs + [c], k) == InLetter(cs, k) + (if LetterKey(c) == k then [c] else [])
  {
    assert (cs + [c])[..|cs|] == cs;
  }

  lemma KeysOfSnoc(cs: seq<Country>, c: Country)
    requires AllNamed(cs + [c])
    ensures AllNamed(cs)
    ensures KeysOf(cs + [c]) == KeysOf(cs) + {LetterKey(c)}
  {
    assert forall x | x in cs :: x in cs + [c];
  }

  predicate DistinctLetters(gs: seq<Group>) {
    forall i, j | 0 <= i < j < |gs| :: gs[i].letter != gs[j].letter
  }

  /** Replacing a group by one with the same key keeps the key set and its distinctness. */
  lemma SameLetterUpdate(gs: seq<Group>, i: nat, g: Group)
    requires i < |gs| && g.letter == gs[i].letter
    ensures Letters(gs[i := g]) == Letters(gs)
    ensures DistinctLetters(gs) ==> DistinctLetters(gs[i := g])
  {
    var gs' := gs[i := g];
    assert forall j | 0 <= j < |gs| :: gs'[j].letter == gs[j].letter;
    forall x | x in Letters(gs) ensures x in Letters(gs') {
      var h :| h in gs && h.letter == x;
      var j :| 0 <= j < |gs| && gs[j] == h;
      assert gs'[j] in gs';
    }
  }

  /** Appending a group with a fresh key adds that key and keeps distinctness. */
  lemma FreshLetterAppend(gs: seq<Group>, g: Group)
    requires forall j | 0 <= j < |gs| :: gs[j].letter != g.letter
    ensures Letters(gs + [g]) == Letters(gs) + {g.letter}
    ensures DistinctLetters(gs) ==> DistinctLetters(gs + [g])
  {
  }

  /** After pushing `c` onto the group of its key, every group holds exactly its key's countries. */
  lemma PushMembers(cs: seq<Country>, gs: seq<Group>, c: Country, i: nat)
    requires AllNamed(cs + [c])
    requires AllNamed(cs) && DistinctLetters(gs)
    requires forall j | 0 <= j < |gs| :: gs[j].members == InLetter(cs, gs[j].letter)
    requires i < |gs| && gs[i].letter == LetterKey(c)
    ensures var gs' := gs[i := Group(LetterKey(c), gs[i].members + [c])];
      forall j | 0 <= j < |gs'| :: gs'[j].members == InLetter(cs + [c], gs'[j].letter)
  {
    var gs' := gs[i := Group(LetterKey(c), gs[i].members + [c])];
    forall j | 0 <= j < |gs'| ensures gs'[j].members == InLetter(cs + [c], gs'[j].letter) {
      InLetterSnoc(cs, c, gs'[j].letter);
      if j != i {
        assert gs[j].letter != gs[i].letter;
      }
    }
  }

  /** Pushing onto the existing group keyed like `c`. */
  lemma PushKeepsWellGrouped(cs: seq<Country>, gs: seq<Group>, c: Country, i: nat)
    requires AllNamed(cs + [c])
    requires AllNamed(cs) && WellGrouped(cs, gs)
    requires i < |gs| && gs[i].letter == LetterKey(c)
    ensures WellGrouped(cs + [c], gs[i := Group(LetterKey(c), gs[i].members + [c])])
  {
    var g := Group(gs[i].letter, gs[i].members + [c]);
    var gs' := gs[i := g];
    assert gs' == gs[i := Group(LetterKey(c), gs[i].members + [c])];
    assert forall j | 0 <= j < |gs'| :: gs'[j].members == InLetter(cs + [c], gs'[j].letter) by {
      PushMembers(cs, gs, c, i);
    }
    assert DistinctLetters(gs') && Letters(gs') == KeysOf(cs + [c]) by {
      SameLetterUpdate(gs, i, g);
      KeysOfSnoc(cs, c);
      assert gs[i] in gs;
    }
    assert multiset(Flatten(gs')) == multiset(cs + [c]) by {
      FlattenPush(gs, i, c);
    }
    assert forall j | 0 <= j < |gs'| :: |gs'[j].members| > 0;
  }

  /** After opening a group for a fresh key, every group holds exactly its key's countries. */
  lemma OpenMembers(cs: seq<Country>, gs: seq<Group>, c: Country)
    requires AllNamed(cs + [c])
    requires AllNamed(cs) && LetterKey(c) !in KeysOf(cs)
    requires forall j | 0 <= j < |gs| :: gs[j].members == InLetter(cs, gs[j].letter)
    requires forall j | 0 <= j < |gs| :: gs[j].letter != LetterKey(c)
    ensures var gs' := gs + [Group(LetterKey(c), [c])];
      forall j | 0 <= j < |gs'| :: gs'[j].members == InLetter(cs + [c], gs'[j].letter)
  {
    var gs' := gs + [Group(LetterKey(c), [c])];
    InLetterOfAbsentKey(cs, LetterKey(c));
    forall j | 0 <= j < |gs'| ensures gs'[j].members == InLetter(cs + [c], gs'[j].letter) {
      InLetterSnoc(cs, c, gs'[j].letter);
    }
  }

  /** Opening a group for a fresh key keeps the keys distinct and adds exactly that key. */
  lemma OpenLetters(cs: seq<Country>, gs: seq<Group>, c: Country)
    requires AllNamed(cs + [c])
    requires AllNamed(cs) && DistinctLetters(gs) && Letters(gs) == KeysOf(cs)
    requires forall j | 0 <= j < |gs| :: gs[j].letter != LetterKey(c)
    ensures LetterKey(c) !in KeysOf(cs)
    ensures var gs' := gs + [Group(LetterKey(c), [c])];
      DistinctLetters(gs') && Letters(gs') == KeysOf(cs + [c])
  {
    forall h | h in gs ensures h.letter != LetterKey(c) {
      var j :| 0 <= j < |gs| && gs[j] == h;
    }
    KeysOfSnoc(cs, c);
    FreshLetterAppend(gs, Group(LetterKey(c), [c]));
  }

  /** Opening a new group for a key not seen before. */
  lemma OpenKeepsWellGrouped(cs: seq<Country>, gs: seq<Group>, c: Country)
    requires AllNamed(cs + [c])
    requires AllNamed(cs) && WellGrouped(cs, gs)
    requires forall j | 0 <= j < |gs| :: gs[j].letter != LetterKey(c)
    ensures WellGrouped(cs + [c], gs + [Group(LetterKey(c), [c])])
  {
    OpenLetters(cs, gs, c);
    OpenMembers(cs, gs, c);
    OpenFlatten(cs, gs, c);
  }

  /** Opening a group for `c` adds `c` to the grouped countries and leaves no group empty. */
  lemma OpenFlatten(cs: seq<Country>, gs: seq<Group>, c: Country)
    requires |c.shortName| > 0
    requires multiset(Flatten(gs)) == multiset(cs)
    requires forall j | 0 <= j < |gs| :: |gs[j].members| > 0
    ensures var gs' := gs + [Group(LetterKey(c), [c])];
      multiset(Flatten(gs')) == multiset(cs + [c]) && forall j | 0 <= j < |gs'| :: |gs'[j].members| > 0
  {
    var g := Group(LetterKey(c), [c]);
    FlattenAppend(gs, g);
    assert multiset(cs + [c]) == multiset(cs) + multiset{c};
  }

  /** One `forEach` step keeps `gs` the grouping of the prefix read so far. */
  lemma AddToGroupKeepsWellGrouped(cs: seq<Country>, gs: seq<Group>, c: Country)
    requires AllNamed(cs + [c])
    requires AllNamed(cs) && WellGrouped(cs, gs)
    ensures WellGrouped(cs + [c], AddToGroup(gs, c))
  {
    match FindGroup(gs, LetterKey(c))
    case Some(i) => PushKeepsWellGrouped(cs, gs, c, i);
    case None => OpenKeepsWellGrouped(cs, gs, c);
  }

  /** `groupCountriesByLetter(countries)`. */
  function GroupCountriesByLetter(cs: seq<Country>): (gs: seq<Group>)
    requires AllNamed(cs)
    ensures WellGrouped(cs, gs)
  {
    if |cs| == 0 then []
    else
      var init := cs[..|cs| - 1];
      var last := cs[|cs| - 1];
      assert cs == init + [last];
      var gs := GroupCountriesByLetter(init);
      AddToGroupKeepsWellGrouped(init, gs, last);
      AddToGroup(gs, last)
  }

  /** Grouping an empty list yields no groups, and a non-empty list at least one. */
  lemma GroupEmptyIffInputEmpty(cs: seq<Country>)
    requires AllNamed(cs)
    ensures |GroupCountriesByLetter(cs)| == 0 <==> |cs| == 0
  {
    var gs := GroupCountriesByLetter(cs);
    if |cs| > 0 {
      assert LetterKey(cs[0]) in KeysOf(cs);
    }
    if |gs| > 0 {
      assert gs[0].letter in Letters(gs);
    }
  }

  /** The group sizes sum to the number of countries grouped. */
  lemma GroupSizesSum(cs: seq<Country>)
    requires AllNamed(cs)
    ensures |Flatten(GroupCountriesByLetter(cs))| == |cs|
  {
    var f := Flatten(GroupCountriesByLetter(cs));
    assert |multiset(f)| == |multiset(cs)|;
  }

  /** Each country of the input lies in the group of its key and in no other. */
  lemma CountryInExactlyOneGroup(cs: seq<Country>, c: Country, i: nat)
    requires AllNamed(cs) && c in cs
    requires i < |GroupCountriesByLetter(cs)|
    ensures c in GroupCountriesByLetter(cs)[i].members <==> GroupCountriesByLetter(cs)[i].letter == LetterKey(c)
  {
    InLetterMembers(cs, GroupCountriesByLetter(cs)[i].letter, c);
  }

  /** Every country's key has a group. */
  lemma CountryHasGroup(cs: seq<Country>, c: Country)
    requires AllNamed(cs) && c in cs
    ensures exists i | 0 <= i < |GroupCountriesByLetter(cs)| :: GroupCountriesByLetter(cs)[i].letter == LetterKey(c)
  {
    var gs := GroupCountriesByLetter(cs);
    assert LetterKey(c) in KeysOf(cs);
    assert LetterKey(c) in Letters(gs);
  }

  /** A relation that holds between every earlier and later element of `s`. */
  predicate PairwiseOrdered(s: seq<Country>, rel: (Country, Country) -> bool) {
    forall i, j | 0 <= i < j < |s| :: rel(s[i], s[j])
  }

  /** A group is a subsequence of its input, so it keeps every pairwise ordering the input has. */
  lemma {:induction false} InLetterKeepsOrder(cs: seq<Country>, k: string, rel: (Country, Country) -> bool)
    requires AllNamed(cs) && PairwiseOrdered(cs, rel)
    ensures PairwiseOrdered(InLetter(cs, k), rel)
  {
    if |cs| > 0 {
      var init := cs[..|cs| - 1];
      var last := cs[|cs| - 1];
      assert PairwiseOrdered(init, rel);
      InLetterKeepsOrder(init, k, rel);
      var prev := InLetter(init, k);
      if LetterKey(last) == k {
        var r := prev + [last];
        forall i, j | 0 <= i < j < |r| ensures rel(r[i], r[j]) {
          if j == |r| - 1 {
            InLetterMembers(init, k, r[i]);
            var m :| 0 <= m < |init| && init[m] == r[i];
            assert cs[m] == r[i];
          } else {
            assert r[i] == prev[i] && r[j] == prev[j];
          }
        }
      }
    }
  }

  /** Some group holds at least one country (`Object.values(g).some((arr) => arr.length > 0)`). */
  predicate AnyMember(gs: seq<Group>) {
    exists i | 0 <= i < |gs| :: |gs[i].members| > 0
  }

  /**
   * `getFirstCountry`: sort the keys, take the first element of the group with
   * the smallest key (none when there are no keys or that group is empty).
   */
  function FirstCountry(gs: seq<Group>): (r: Option<Country>)
    ensures |gs| == 0 ==> r.None?
    ensures r.Some? ==> exists i | 0 <= i < |gs| ::
      && |gs[i].members| > 0 && r.value == gs[i].members[0]
      && forall j | 0 <= j < |gs| :: LexLe(gs[i].letter, gs[j].letter)
  {
    var keys := Sorting.Sort(gs, LetterOf);
    if |keys| == 0 || |keys[0].members| == 0 then None
    else
      var g := keys[0];
      assert g in multiset(gs);
      assert forall j | 0 <= j < |gs| :: LexLe(g.letter, gs[j].letter) by {
        forall j | 0 <= j < |gs| ensures LexLe(g.letter, gs[j].letter) {
          assert gs[j] in multiset(keys);
          var m :| 0 <= m < |keys| && keys[m] == gs[j];
          if m > 0 { assert LexLe(LetterOf(keys[0]), LetterOf(keys[m])); } else { LexLeReflexive(g.letter); }
        }
      }
      Some(g.members[0])
  }

  lemma {:induction false} MemberInFlatten(gs: seq<Group>, i: nat, c: Country)
    requires i < |gs| && c in gs[i].members
    ensures c in Flatten(gs)
  {
    if i > 0 {
      MemberInFlatten(gs[1..], i - 1, c);
    }
  }

  lemma {:induction false} FlattenMember(gs: seq<Group>, c: Country)
    requires c in Flatten(gs)
    ensures exists g | g in gs :: c in g.members
  {
    if c !in gs[0].members {
      FlattenMember(gs[1..], c);
      var g :| g in gs[1..] && c in g.members;
      assert g in gs;
    }
  }

  /** Reordering the groups keeps the set of countries they hold. */
  lemma FlattenOfPermutation(gs: seq<Group>, hs: seq<Group>, c: Country)
    requires multiset(gs) == multiset(hs) && c in Flatten(gs)
    ensures c in Flatten(hs)
  {
    FlattenMember(gs, c);
    var g :| g in gs && c in g.members;
    assert g in multiset(hs);
    var i :| 0 <= i < |hs| && hs[i] == g;
    MemberInFlatten(hs, i, c);
  }

  /** The first country, when there is one, is one of the grouped countries. */
  lemma FirstCountryIsMember(gs: seq<Group>)
    ensures FirstCountry(gs).Some? ==> FirstCountry(gs).value in Flatten(gs)
  {
    if FirstCountry(gs).Some? {
      var i :| 0 <= i < |gs| && |gs[i].members| > 0 && FirstCountry(gs).value == gs[i].members[0];
      MemberInFlatten(gs, i, gs[i].members[0]);
    }
  }

  /**
   * With distinct keys and no empty group, the first country is the head of the
   * group whose key is smallest.
   */
  lemma FirstCountryOfSmallestKey(gs: seq<Group>, i: nat)
    requires forall a, b | 0 <= a < b < |gs| :: gs[a].letter != gs[b].letter
    requires forall a | 0 <= a < |gs| :: |gs[a].members| > 0
    requires i < |gs| && forall j | 0 <= j < |gs| :: LexLe(gs[i].letter, gs[j].letter)
    ensures FirstCountry(gs) == Some(gs[i].members[0])
  {
    var keys := Sorting.Sort(gs, LetterOf);
    assert gs[i] in multiset(keys);
    assert |keys| > 0;
    assert keys[0] in multiset(gs);
    var a :| 0 <= a < |gs| && gs[a] == keys[0];
    var m :| 0 <= m < |keys| && keys[m] == gs[i];
    if m > 0 { assert LexLe(LetterOf(keys[0]), LetterOf(keys[m])); } else { LexLeReflexive(keys[0].letter); }
    LexLeAntisymmetric(gs[a].letter, gs[i].letter);
    assert a == i;
  }

  /** A single non-empty bucket's first country is its head. */
  lemma FirstOfOneBucket(gs: seq<Group>, r: seq<Country>)
    requires gs == [Group("", r)] && |r| > 0
    ensures FirstCountry(gs) == Some(r[0])
  {
    LexLeReflexive("");
    FirstCountryOfSmallestKey(gs, 0);
  }
}
