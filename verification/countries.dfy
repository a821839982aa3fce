/**
 * The `Country` record (types/country-selector.ts:9-16), the catalog the widget
 * reads (`CountryList`, lines 22-27), the two selector modes (line 43) and the
 * lookup of a country by a dial code or a short name that every variant of the
 * widget uses to resolve its value.
 */
module Countries {
  import opened Options

  datatype Country = Country(
    zhName: string,
    enName: string,
    shortName: string,
    firstLetter: string,
    code: string,
    id: int)

  /** `'dialCode' | 'nationality'`. */
  datatype Mode = DialCode | Nationality

  /** Every country has a non-empty `shortName` (grouping reads its first character). */
  predicate AllNamed(cs: seq<Country>) {
    forall c | c in cs :: |c.shortName| > 0
  }

  /** A country list the letter grouping can process without throwing. */
  type NamedList = cs: seq<Country> | AllNamed(cs) witness []

  /** `{ hotList, list }`; the full list is the one that is searched and grouped. */
  datatype Catalog = Catalog(hotList: seq<Country>, normalList: NamedList) {
    /** `[...hotList, ...normalList]`, the list values are resolved against. */
    function Combined(): seq<Country> {
      hotList + normalList
    }
  }

  /** `c.code === v || c.shortName === v`. */
  predicate Identifies(c: Country, v: string) {
    c.code == v || c.shortName == v
  }

  /** Index of the first country identified by `v`. */
  function FindFirst(cs: seq<Country>, v: string): (r: Option<nat>)
    ensures r.Some? ==> r.value < |cs| && Identifies(cs[r.value], v)
    ensures r.Some? ==> forall j :: 0 <= j < r.value ==> !Identifies(cs[j], v)
    ensures r.None? ==> forall j :: 0 <= j < |cs| ==> !Identifies(cs[j], v)
  {
    if |cs| == 0 then None
    else if Identifies(cs[0], v) then Some(0)
    else match FindFirst(cs[1..], v)
      case None => None
      case Some(i) => Some(i + 1)
  }

  /** `cs.find((c) => c.code === v || c.shortName === v)`. */
  function Find(cs: seq<Country>, v: string): (r: Option<Country>)
    ensures r.Some? ==> r.value in cs && Identifies(r.value, v)
    ensures r.Some? ==> exists i | 0 <= i < |cs| :: cs[i] == r.value && forall j | 0 <= j < i :: !Identifies(cs[j], v)
    ensures r.None? <==> forall c | c in cs :: !Identifies(c, v)
  {
    match FindFirst(cs, v)
    case None => None
    case Some(i) => Some(cs[i])
  }

  /** When exactly one country of the list is identified by `v`, it is found. */
  lemma FindUnique(cs: seq<Country>, v: string, c: Country)
    requires c in cs && Identifies(c, v)
    requires forall d | d in cs && Identifies(d, v) :: d == c
    ensures Find(cs, v) == Some(c)
  {
  }

  /** The value the widget stores for a country: its dial code or its short name. */
  function ModeValue(mode: Mode, c: Country): (v: string)
    ensures Identifies(c, v)
  {
    match mode
    case DialCode => c.code
    case Nationality => c.shortName
  }
}
