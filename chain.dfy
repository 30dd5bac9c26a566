/**
 * The first-hit selector chain: the loop shared by the title, company and
 * structured-date lookups in `extract_single_job_details`. Each selector's
 * first match is read; the first non-empty reading is the field's value and
 * later selectors are never consulted; a selector with no match (where
 * `find_element` raises) is skipped.
 */
module Chain {
  import opened Text
  import opened Dom

  /** How a chain reads the first element a selector matches. */
  datatype Probe =
    | TextProbe   // the element's stripped text (title, company)
    | DateProbe   // the `datetime` attribute if non-empty, else the stripped text

  /** `get_attribute('datetime') or element.text.strip()`: the attribute is used as is, not stripped. */
  function DateValue(e: Element): string {
    if e.datetime.Some? && e.datetime.value != "" then e.datetime.value else Strip(e.text)
  }

  function Read(e: Element, probe: Probe): string {
    match probe
    case TextProbe => Strip(e.text)
    case DateProbe => DateValue(e)
  }

  /** The reading one selector yields: `''` when it matches nothing. */
  function ProbeAt(card: Card, selector: string, probe: Probe): string {
    match FindFirst(card, selector)
    case None => ""
    case Some(e) => Read(e, probe)
  }

  /** The reading of the earliest selector whose reading is non-empty; `''` when there is none. */
  function FirstHit(card: Card, selectors: seq<string>, probe: Probe): string
    decreases |selectors|
  {
    if selectors == [] then ""
    else
      var v := ProbeAt(card, selectors[0], probe);
      if v != "" then v else FirstHit(card, selectors[1..], probe)
  }

  /** The selector loop as the source runs it: overwrite, stop at the first non-empty value, skip a raising lookup. */
  method ResolveChain(card: Card, selectors: seq<string>, probe: Probe) returns (value: string)
    ensures value == FirstHit(card, selectors, probe)
  {
    value := "";
    var i := 0;
    while i < |selectors|
      invariant 0 <= i <= |selectors|
      invariant value == ""
      invariant FirstHit(card, selectors, probe) == FirstHit(card, selectors[i..], probe)
    {
      assert selectors[i..][1..] == selectors[i + 1..];
      var found := FindFirst(card, selectors[i]);
      if found.Some? {
        value := Read(found.value, probe);
        if value != "" {
          break;
        }
      }
      i := i + 1;
    }
  }

  /** Selector `k` wins the chain: it reads non-empty and every earlier selector reads `''`. */
  ghost predicate WinsAt(card: Card, selectors: seq<string>, probe: Probe, k: int) {
    0 <= k < |selectors|
    && ProbeAt(card, selectors[k], probe) != ""
    && forall j :: 0 <= j < k ==> ProbeAt(card, selectors[j], probe) == ""
  }

  /** First match wins: the winning selector's reading is the result, whatever later selectors hold. */
  lemma {:induction false} FirstHitAt(card: Card, selectors: seq<string>, probe: Probe, k: int)
    requires WinsAt(card, selectors, probe, k)
    ensures FirstHit(card, selectors, probe) == ProbeAt(card, selectors[k], probe)
    decreases k
  {
    if k > 0 {
      assert ProbeAt(card, selectors[0], probe) == "";
      assert WinsAt(card, selectors[1..], probe, k - 1) by {
        forall j | 0 <= j < k - 1 ensures ProbeAt(card, selectors[1..][j], probe) == "" {
          assert selectors[1..][j] == selectors[j + 1];
        }
      }
      FirstHitAt(card, selectors[1..], probe, k - 1);
    }
  }

  /** The chain yields `''` exactly when every selector reads `''`; otherwise some selector wins it. */
  lemma {:induction false} FirstHitCases(card: Card, selectors: seq<string>, probe: Probe)
    ensures FirstHit(card, selectors, probe) == ""
      <==> forall j :: 0 <= j < |selectors| ==> ProbeAt(card, selectors[j], probe) == ""
    ensures FirstHit(card, selectors, probe) != ""
      ==> exists k :: WinsAt(card, selectors, probe, k)
    decreases |selectors|
  {
    if selectors != [] {
      FirstHitCases(card, selectors[1..], probe);
      if ProbeAt(card, selectors[0], probe) != "" {
        assert WinsAt(card, selectors, probe, 0);
      } else {
        forall j | 1 <= j < |selectors|
          ensures ProbeAt(card, selectors[j], probe) == ProbeAt(card, selectors[1..][j - 1], probe)
        {
        }
        if FirstHit(card, selectors, probe) != "" {
          var k :| WinsAt(card, selectors[1..], probe, k);
          assert WinsAt(card, selectors, probe, k + 1) by {
            forall j | 0 <= j < k + 1 ensures ProbeAt(card, selectors[j], probe) == "" {
              if j > 0 {
                assert selectors[j] == selectors[1..][j - 1];
              }
            }
          }
        }
      }
    }
  }

  /** Later selectors are consulted only when the earlier ones all read `''`. */
  lemma {:induction false} FirstHitAppend(card: Card, first: seq<string>, later: seq<string>, probe: Probe)
    ensures FirstHit(card, first + later, probe)
      == if FirstHit(card, first, probe) != "" then FirstHit(card, first, probe) else FirstHit(card, later, probe)
    decreases |first|
  {
    if first == [] {
      assert first + later == later;
    } else {
      assert (first + later)[1..] == first[1..] + later;
      FirstHitAppend(card, first[1..], later, probe);
    }
  }

  /** A chain reads only what the selectors match, never the card's whole text or its fault flag. */
  lemma {:induction false} FirstHitReadsMatches(card: Card, other: Card, selectors: seq<string>, probe: Probe)
    requires card.matches == other.matches
    ensures FirstHit(card, selectors, probe) == FirstHit(other, selectors, probe)
    decreases |selectors|
  {
    if selectors != [] {
      assert FindAll(card, selectors[0]) == FindAll(other, selectors[0]);
      FirstHitReadsMatches(card, other, selectors[1..], probe);
    }
  }

  /** A text chain's value is already stripped: `''` or text with no surrounding whitespace. */
  lemma {:induction false} TextChainIsStripped(card: Card, selectors: seq<string>)
    ensures Strip(FirstHit(card, selectors, TextProbe)) == FirstHit(card, selectors, TextProbe)
    decreases |selectors|
  {
    if selectors != [] {
      var found := FindFirst(card, selectors[0]);
      if found.Some? {
        StripIdempotent(found.value.text);
      }
      TextChainIsStripped(card, selectors[1..]);
    }
  }

  /** A non-empty `datetime` attribute is used verbatim, even when it is only whitespace. */
  lemma DatetimeNotStripped()
    ensures DateValue(Element("Posted", Some("  "))) == "  "
  {
  }
}
