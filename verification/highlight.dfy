/**
 * `highlightMatch` (utils/countryUtils.tsx:36-58): the text of a list item is
 * split around every case-insensitive occurrence of the search term and the
 * pieces that contain the term are marked. The source builds a regular
 * expression from the raw term; the model matches the term literally.
 */
module Highlight {
  import opened Options
  import opened Text

  /** One rendered piece: plain text, or text wrapped in `<mark>`. */
  datatype Span = Span(text: string, marked: bool)

  /** `t[i..]` starts with `p`, ignoring ASCII case. */
  predicate MatchesAt(t: string, p: string, i: int) {
    OccursAt(Lower(t), Lower(p), i)
  }

  /** `t` contains `p`, ignoring ASCII case: what `new RegExp(p, 'gi').test(t)` decides. */
  predicate ContainsIgnoringCase(t: string, p: string) {
    Contains(Lower(t), Lower(p))
  }

  function Join(parts: seq<string>): string {
    if |parts| == 0 then [] else parts[0] + Join(parts[1..])
  }

  function JoinSpans(spans: seq<Span>): string {
    if |spans| == 0 then [] else spans[0].text + JoinSpans(spans[1..])
  }

  /** The prefix before the first match holds no match. */
  lemma NoMatchBeforeFirst(t: string, p: string, i: nat)
    requires i <= |t| && |p| > 0
    requires forall j :: 0 <= j < i ==> !MatchesAt(t, p, j)
    ensures !ContainsIgnoringCase(t[..i], p)
  {
    LowerSlice(t, 0, i);
    assert t[0..i] == t[..i];
    assert Lower(t)[0..i] == Lower(t)[..i];
    if ContainsIgnoringCase(t[..i], p) {
      var j :| 0 <= j <= |t[..i]| && OccursAt(Lower(t[..i]), Lower(p), j);
      assert Lower(t[..i]) == Lower(t)[..i];
      OccursInPrefix(Lower(t), Lower(p), i, j);
      assert MatchesAt(t, p, j);
      assert false;
    }
  }

  /** The four properties of a split, stated once for reuse. */
  predicate IsSplit(t: string, p: string, r: seq<string>) {
    && |r| % 2 == 1
    && Join(r) == t
    && (forall k | 0 <= k < |r| && k % 2 == 1 :: Lower(r[k]) == Lower(p))
    && (forall k | 0 <= k < |r| && k % 2 == 0 :: !ContainsIgnoringCase(r[k], p))
  }

  /** Cutting at the leftmost match and splitting the remainder splits the whole text. */
  lemma SplitAtFirst(t: string, p: string, i: nat, rest: seq<string>)
    requires |p| > 0 && i + |p| <= |t| && MatchesAt(t, p, i)
    requires forall j :: 0 <= j < i ==> !MatchesAt(t, p, j)
    requires IsSplit(t[i + |p|..], p, rest)
    ensures IsSplit(t, p, [t[..i], t[i..i + |p|]] + rest)
  {
    var before := t[..i];
    var hit := t[i..i + |p|];
    var r := [before, hit] + rest;
    NoMatchBeforeFirst(t, p, i);
    LowerSlice(t, i, i + |p|);
    assert Join(r) == before + (hit + Join(rest)) by {
      assert r[1..] == [hit] + rest;
      assert r[1..][1..] == rest;
    }
    assert t == before + (hit + t[i + |p|..]);
    forall k | 2 <= k < |r| ensures r[k] == rest[k - 2] {
    }
  }

  /**
   * `text.split(new RegExp('(' + p + ')', 'gi'))` for a non-empty literal `p`:
   * the text between matches at even indices, each match (with the text's own
   * case) at odd indices, matches found left to right without overlap.
   */
  function SplitParts(t: string, p: string): (r: seq<string>)
    requires |p| > 0
    ensures IsSplit(t, p, r)
    decreases |t|
  {
    match IndexOf(Lower(t), Lower(p))
    case None => [t]
    case Some(i) =>
      var rest := SplitParts(t[i + |p|..], p);
      SplitAtFirst(t, p, i, rest);
      [t[..i], t[i..i + |p|]] + rest
  }

  /** The split has more than one part exactly when the term occurs. */
  lemma SplitPartsCount(t: string, p: string)
    requires |p| > 0
    ensures |SplitParts(t, p)| > 1 <==> ContainsIgnoringCase(t, p)
  {
  }

  /**
   * `highlightMatch(text, term)`: a blank term leaves the text as one plain
   * piece; otherwise each piece of the split is marked when it contains the term.
   */
  function HighlightMatch(text: string, term: string): (r: seq<Span>)
    ensures JoinSpans(r) == text
    ensures IsBlank(term) ==> r == [Span(text, false)]
    ensures !IsBlank(term) ==> forall k | 0 <= k < |r| :: r[k].marked <==> k % 2 == 1
    ensures !IsBlank(term) ==> forall k | 0 <= k < |r| && r[k].marked :: Lower(r[k].text) == Lower(term)
    ensures !IsBlank(term) ==> forall k | 0 <= k < |r| && !r[k].marked :: !ContainsIgnoringCase(r[k].text, term)
    ensures !IsBlank(term) ==> |term| > 0 && |r| == |SplitParts(text, term)|
  {
    if IsBlank(term) then [Span(text, false)]
    else
      assert |term| > 0;
      var parts := SplitParts(text, term);
      var r := seq(|parts|, k requires 0 <= k < |parts| => Span(parts[k], ContainsIgnoringCase(parts[k], term)));
      forall k | 0 <= k < |r| && k % 2 == 1 ensures r[k].marked {
        ContainsSelf(Lower(parts[k]));
      }
      JoinOfSpans(parts, r);
      r
  }

  lemma {:induction false} JoinOfSpans(parts: seq<string>, r: seq<Span>)
    requires |r| == |parts| && forall k | 0 <= k < |r| :: r[k].text == parts[k]
    ensures JoinSpans(r) == Join(parts)
  {
    if |r| > 0 {
      JoinOfSpans(parts[1..], r[1..]);
    }
  }

  /**
   * A non-blank term marks nothing exactly when it does not occur in the text,
   * and then the text comes back as the single plain piece.
   */
  lemma NothingMarkedIffNoOccurrence(text: string, term: string)
    requires !IsBlank(term)
    ensures (forall k | 0 <= k < |HighlightMatch(text, term)| :: !HighlightMatch(text, term)[k].marked)
      <==> !ContainsIgnoringCase(text, term)
  {
    var r := HighlightMatch(text, term);
    SplitPartsCount(text, term);
    if ContainsIgnoringCase(text, term) {
      assert r[1].marked;
    }
  }
}
