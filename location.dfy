/**
 * The location lookup of `extract_single_job_details`: an outer loop over
 * location selectors, an inner loop over every element a selector matches,
 * and a shape test that decides whether a stripped candidate is a location.
 */
module Location {
  import opened Text
  import opened Dom

  const LocationSelectors: seq<string> := [
    ".job-card-container__metadata-item",
    ".job-card-list__location",
    "[data-testid='job-location']",
    ".artdeco-entity-lockup__caption",
    ".job-card-container__metadata-wrapper span"
  ]

  /** The substrings that mark a location; the comma is one of them. */
  const LocationIndicators: seq<string> := ["remote", "hybrid", "on-site", "city", "state", "country", ","]

  /** Some indicator occurs in the lower-cased candidate. */
  predicate HasIndicator(text: string) {
    AnyIn(LocationIndicators, Lower(text))
  }

  /** Locations are usually short: at most four whitespace-separated words. */
  predicate IsShort(text: string) {
    |Split(text)| <= 4
  }

  /**
   * The candidate test, grouped as Python groups `text and any(...) or len(...) <= 4`:
   * `and` binds tighter than `or`, so the length clause stands on its own.
   */
  predicate LooksLikeLocation(text: string) {
    (text != "" && HasIndicator(text)) || IsShort(text)
  }

  /**
   * The inner element loop: the stripped text of the first element whose
   * stripped text `accept` approves, if any. The location lookup runs it with
   * `LooksLikeLocation`.
   */
  function FirstAccepted(elements: seq<Element>, accept: string -> bool): Option<string>
    decreases |elements|
  {
    if elements == [] then None
    else
      var text := Strip(elements[0].text);
      if accept(text) then Some(text) else FirstAccepted(elements[1..], accept)
  }

  /**
   * The location the selector loop settles on: the first selector whose first
   * passing candidate is non-empty gives it; a selector whose first passing
   * candidate is `''` ends its own element loop and leaves the search going.
   */
  function LocationFrom(card: Card, selectors: seq<string>): string
    decreases |selectors|
  {
    if selectors == [] then ""
    else
      var candidate := FirstAccepted(FindAll(card, selectors[0]), LooksLikeLocation);
      if candidate.Some? && candidate.value != "" then candidate.value
      else LocationFrom(card, selectors[1..])
  }

  /** The nested selector and element loops, with their two `break`s. */
  method ExtractLocation(card: Card, selectors: seq<string>) returns (location: string)
    ensures location == LocationFrom(card, selectors)
  {
    location := "";
    var i := 0;
    while i < |selectors|
      invariant 0 <= i <= |selectors|
      invariant location == ""
      invariant LocationFrom(card, selectors) == LocationFrom(card, selectors[i..])
    {
      assert selectors[i..][1..] == selectors[i + 1..];
      var elements := FindAll(card, selectors[i]);
      var j := 0;
      while j < |elements|
        invariant 0 <= j <= |elements|
        invariant location == ""
        invariant FirstAccepted(elements, LooksLikeLocation) == FirstAccepted(elements[j..], LooksLikeLocation)
      {
        assert elements[j..][0] == elements[j] && elements[j..][1..] == elements[j + 1..];
        var text := Strip(elements[j].text);
        assert FirstAccepted(elements[j..], LooksLikeLocation)
          == if LooksLikeLocation(text) then Some(text) else FirstAccepted(elements[j + 1..], LooksLikeLocation);
        if LooksLikeLocation(text) {
          location := text;
          break;
        }
        j := j + 1;
      }
      if location != "" {
        break;
      }
      i := i + 1;
    }
  }

  // ------------------------------------------------------------- the test

  /** The emptiness guard does nothing: an empty string has no words, so the length clause accepts it anyway. */
  lemma EmptyGuardRedundant(text: string)
    ensures LooksLikeLocation(text) <==> HasIndicator(text) || IsShort(text)
    ensures LooksLikeLocation("")
  {
  }

  /** The test and the grouping `text and (any(...) or len(...) <= 4)` disagree exactly on the empty candidate. */
  lemma PrecedenceQuirk(text: string)
    ensures LooksLikeLocation(text) != (text != "" && (HasIndicator(text) || IsShort(text))) <==> text == ""
  {
  }

  /** A candidate of five or more words passes only through an indicator or a comma. */
  lemma LongCandidateNeedsIndicator(text: string)
    requires |Split(text)| >= 5
    ensures LooksLikeLocation(text) <==> HasIndicator(text)
  {
  }

  // ------------------------------------------------------- the two loops

  /** Element `j` is the first of `elements` whose stripped text `accept` approves. */
  ghost predicate FirstPassingAt(elements: seq<Element>, accept: string -> bool, j: int) {
    0 <= j < |elements|
    && accept(Strip(elements[j].text))
    && forall i :: 0 <= i < j ==> !accept(Strip(elements[i].text))
  }

  /** The element loop finds nothing exactly when no element is approved. */
  lemma {:induction false} FirstAcceptedNone(elements: seq<Element>, accept: string -> bool)
    ensures FirstAccepted(elements, accept).None?
      <==> forall i :: 0 <= i < |elements| ==> !accept(Strip(elements[i].text))
    decreases |elements|
  {
    if elements != [] {
      FirstAcceptedNone(elements[1..], accept);
      if !accept(Strip(elements[0].text)) {
        assert FirstAccepted(elements, accept) == FirstAccepted(elements[1..], accept);
        forall i | 1 <= i < |elements| ensures elements[i] == elements[1..][i - 1] {
        }
      }
    }
  }

  /** When the element loop finds something, it stopped at the first approved element. */
  lemma {:induction false} FirstAcceptedSome(elements: seq<Element>, accept: string -> bool)
    requires FirstAccepted(elements, accept).Some?
    ensures exists j :: FirstPassingAt(elements, accept, j)
    decreases |elements|
  {
    if accept(Strip(elements[0].text)) {
      assert FirstPassingAt(elements, accept, 0);
    } else {
      assert FirstAccepted(elements, accept) == FirstAccepted(elements[1..], accept);
      FirstAcceptedSome(elements[1..], accept);
      var j :| FirstPassingAt(elements[1..], accept, j);
      forall i | 0 <= i <= j ensures elements[i + 1] == elements[1..][i] {
      }
      assert FirstPassingAt(elements, accept, j + 1);
    }
  }

  /** The element loop's value is the stripped text of the first approved element. */
  lemma {:induction false} FirstPassingFound(elements: seq<Element>, accept: string -> bool, j: int)
    requires FirstPassingAt(elements, accept, j)
    ensures FirstAccepted(elements, accept) == Some(Strip(elements[j].text))
    decreases j
  {
    if j > 0 {
      assert FirstPassingAt(elements[1..], accept, j - 1) by {
        forall i | 0 <= i < j - 1 ensures elements[1..][i] == elements[i + 1] {
        }
      }
      FirstPassingFound(elements[1..], accept, j - 1);
    }
  }

  /** Whatever the loops choose is `''` or a non-empty, passing, stripped text of an element some selector matched. */
  lemma {:induction false} LocationShape(card: Card, selectors: seq<string>)
    ensures var r := LocationFrom(card, selectors);
      r == "" || (LooksLikeLocation(r) && exists k, j ::
        0 <= k < |selectors| && 0 <= j < |FindAll(card, selectors[k])|
        && r == Strip(FindAll(card, selectors[k])[j].text))
    decreases |selectors|
  {
    if selectors != [] {
      var elements := FindAll(card, selectors[0]);
      var candidate := FirstAccepted(elements, LooksLikeLocation);
      if candidate.Some? && candidate.value != "" {
        FirstAcceptedSome(elements, LooksLikeLocation);
        var j :| FirstPassingAt(elements, LooksLikeLocation, j);
        FirstPassingFound(elements, LooksLikeLocation, j);
      } else {
        LocationShape(card, selectors[1..]);
        var r := LocationFrom(card, selectors);
        if r != "" {
          var k, j :| 0 <= k < |selectors[1..]| && 0 <= j < |FindAll(card, selectors[1..][k])|
            && r == Strip(FindAll(card, selectors[1..][k])[j].text);
          assert selectors[1..][k] == selectors[k + 1];
        }
      }
    }
  }

  /** Prose is never chosen: the result never has five or more words unless it holds an indicator or a comma. */
  lemma LocationNeverProse(card: Card, selectors: seq<string>)
    ensures var r := LocationFrom(card, selectors);
      |Split(r)| >= 5 ==> HasIndicator(r)
  {
    LocationShape(card, selectors);
  }

  /** A selector that leaves the location empty: no element passes, or the first that passes is blank. */
  ghost predicate SelectorMisses(card: Card, selector: string) {
    var c := FirstAccepted(FindAll(card, selector), LooksLikeLocation);
    c.None? || c.value == ""
  }

  /**
   * Selector `k` decides the location: every earlier selector's first passing
   * candidate is empty or missing, and selector `k`'s first passing element `j`
   * has non-empty text. That text is the result, whatever later elements and
   * selectors hold.
   */
  lemma {:induction false} LocationAt(card: Card, selectors: seq<string>, k: int, j: int)
    requires 0 <= k < |selectors|
    requires forall i :: 0 <= i < k ==> SelectorMisses(card, selectors[i])
    requires FirstPassingAt(FindAll(card, selectors[k]), LooksLikeLocation, j)
    requires Strip(FindAll(card, selectors[k])[j].text) != ""
    ensures LocationFrom(card, selectors) == Strip(FindAll(card, selectors[k])[j].text)
    decreases k
  {
    if k == 0 {
      FirstPassingFound(FindAll(card, selectors[0]), LooksLikeLocation, j);
    } else {
      assert SelectorMisses(card, selectors[0]);
      forall i | 0 <= i < k - 1 ensures selectors[1..][i] == selectors[i + 1] {
      }
      assert selectors[1..][k - 1] == selectors[k];
      LocationAt(card, selectors[1..], k - 1, j);
    }
  }

  /**
   * The precedence quirk in the loops: when a selector's first passing
   * candidate is empty, its later elements are skipped, even one that
   * plainly looks like a location, and the search moves on to the next selector.
   */
  lemma {:induction false} EmptyCandidateEndsSelector(card: Card, selectors: seq<string>, j: int)
    requires selectors != []
    requires FirstPassingAt(FindAll(card, selectors[0]), LooksLikeLocation, j)
    requires Strip(FindAll(card, selectors[0])[j].text) == ""
    ensures LocationFrom(card, selectors) == LocationFrom(card, selectors[1..])
  {
    FirstPassingFound(FindAll(card, selectors[0]), LooksLikeLocation, j);
  }

  /** The loops read only what the selectors match, never the card's whole text or its fault flag. */
  lemma {:induction false} LocationReadsMatches(card: Card, other: Card, selectors: seq<string>)
    requires card.matches == other.matches
    ensures LocationFrom(card, selectors) == LocationFrom(other, selectors)
    decreases |selectors|
  {
    if selectors != [] {
      assert FindAll(card, selectors[0]) == FindAll(other, selectors[0]);
      LocationReadsMatches(card, other, selectors[1..]);
    }
  }

  /** The location stays `''` exactly when every selector misses: none of its elements passes, or the first that passes is blank. */
  lemma {:induction false} LocationEmptyIff(card: Card, selectors: seq<string>)
    ensures LocationFrom(card, selectors) == "" <==> forall k :: 0 <= k < |selectors| ==> SelectorMisses(card, selectors[k])
    decreases |selectors|
  {
    if selectors != [] {
      LocationEmptyIff(card, selectors[1..]);
      assert forall k :: 1 <= k < |selectors| ==> selectors[k] == selectors[1..][k - 1];
    }
  }

  /** No element under any selector leaves the location `''`. */
  lemma {:induction false} NoElementsNoLocation(card: Card, selectors: seq<string>)
    requires forall k :: 0 <= k < |selectors| ==> FindAll(card, selectors[k]) == []
    ensures LocationFrom(card, selectors) == ""
    decreases |selectors|
  {
    if selectors != [] {
      assert forall k :: 0 <= k < |selectors[1..]| ==> selectors[1..][k] == selectors[k + 1];
      NoElementsNoLocation(card, selectors[1..]);
    }
  }

  /** An instance: a blank element ahead of "Remote" under the same selector hides "Remote". */
  lemma BlankHidesRemote()
    ensures LocationFrom(Card(map["span" := [Element("  ", None), Element("Remote", None)]], "", false), ["span"]) == ""
  {
    var card := Card(map["span" := [Element("  ", None), Element("Remote", None)]], "", false);
    assert Split("  ") == [];
    assert FirstPassingAt(FindAll(card, "span"), LooksLikeLocation, 0);
    EmptyCandidateEndsSelector(card, ["span"], 0);
    assert ["span"][1..] == [];
  }
}
