/**
 * `extract_job_details`: choose the first card selector whose lookup returns
 * a non-empty collection, run the per-card extraction on every card of that
 * collection in document order, skip a card whose extraction faults, and keep
 * only the records whose title is non-empty.
 */
module Cards {
  import opened Dom
  import opened Record

  const CardSelectors: seq<string> := [
    ".job-card-container",
    ".jobs-search-results__list-item",
    ".job-card-list",
    "[data-testid='job-card']",
    ".jobs-search-results-list__item"
  ]

  /** A card contributes a record: its extraction, here `extract`, did not fault and found a title. */
  predicate KeptBy(card: Card, extract: Card -> JobRecord) {
    !card.faulty && extract(card).title != ""
  }

  /** The records the card loop appends, in card order, when each card's record is `extract` of it. */
  function Gate(cards: seq<Card>, extract: Card -> JobRecord): seq<JobRecord>
    decreases |cards|
  {
    if cards == [] then []
    else
      var rest := Gate(cards[..|cards| - 1], extract);
      var last := cards[|cards| - 1];
      if KeptBy(last, extract) then rest + [extract(last)] else rest
  }

  /** The card loop with the per-card extraction of `extract_single_job_details`. */
  function KeptRecords(cards: seq<Card>): seq<JobRecord> {
    Gate(cards, CardRecord)
  }

  /** The collection the selector loop settles on: the first that a lookup returns non-empty; `[]` when none does. */
  function ChosenCards(page: Page, selectors: seq<string>): seq<Card>
    decreases |selectors|
  {
    if selectors == [] then []
    else
      var q := FindCards(page, selectors[0]);
      if q.Returns? && q.cards != [] then q.cards else ChosenCards(page, selectors[1..])
  }

  /** What `extract_job_details` returns for a page. */
  function JobDetails(page: Page): seq<JobRecord> {
    KeptRecords(ChosenCards(page, CardSelectors))
  }

  /**
   * The selector loop with its nested card loop: a raising lookup or an empty
   * collection moves on to the next selector; the first non-empty collection is
   * processed card by card and then ends the selector loop, whatever it yielded.
   */
  method ExtractJobDetails(page: Page) returns (jobDetails: seq<JobRecord>)
    ensures jobDetails == JobDetails(page)
  {
    jobDetails := [];
    var selectors := CardSelectors;
    var i := 0;
    while i < |selectors|
      invariant 0 <= i <= |selectors|
      invariant jobDetails == []
      invariant ChosenCards(page, selectors) == ChosenCards(page, selectors[i..])
    {
      assert selectors[i..][1..] == selectors[i + 1..];
      var query := FindCards(page, selectors[i]);
      if query.Raises? {
        i := i + 1;
        continue;
      }
      var jobCards := query.cards;
      if jobCards != [] {
        var n := 0;
        while n < |jobCards|
          invariant 0 <= n <= |jobCards|
          invariant jobDetails == KeptRecords(jobCards[..n])
        {
          assert jobCards[..n + 1][..n] == jobCards[..n];
          var card := jobCards[n];
          if card.faulty {
            // the fault is caught and the next card is tried
            n := n + 1;
            continue;
          }
          var jobInfo := ExtractSingleJobDetails(card);
          if jobInfo.title != "" {
            jobDetails := jobDetails + [jobInfo];
          }
          n := n + 1;
        }
        assert jobCards[..n] == jobCards;
        break;
      }
      i := i + 1;
    }
  }

  // ------------------------------------------------------- the card loop

  /** Cards are processed independently and in order: the records of a concatenation are the concatenated records. */
  lemma {:induction false} GateAppend(a: seq<Card>, b: seq<Card>, extract: Card -> JobRecord)
    ensures Gate(a + b, extract) == Gate(a, extract) + Gate(b, extract)
    decreases |b|
  {
    if b == [] {
      assert a + b == a;
    } else {
      var ab := a + b;
      assert ab[..|ab| - 1] == a + b[..|b| - 1];
      assert ab[|ab| - 1] == b[|b| - 1];
      GateAppend(a, b[..|b| - 1], extract);
    }
  }

  /** Per-card isolation: a card that faults contributes nothing and the cards around it are still processed. */
  lemma FaultySkipped(before: seq<Card>, card: Card, after: seq<Card>)
    requires card.faulty
    ensures KeptRecords(before + [card] + after) == KeptRecords(before) + KeptRecords(after)
  {
    GateAppend(before + [card], after, CardRecord);
    GateAppend(before, [card], CardRecord);
    assert [card][..0] == [];
  }

  /** Title gating: every record returned has a non-empty title. */
  lemma {:induction false} GateTitlesNonEmpty(cards: seq<Card>, extract: Card -> JobRecord)
    ensures forall i :: 0 <= i < |Gate(cards, extract)| ==> Gate(cards, extract)[i].title != ""
    decreases |cards|
  {
    if cards != [] {
      GateTitlesNonEmpty(cards[..|cards| - 1], extract);
    }
  }

  /** At most one record per card. */
  lemma {:induction false} GateBound(cards: seq<Card>, extract: Card -> JobRecord)
    ensures |Gate(cards, extract)| <= |cards|
    decreases |cards|
  {
    if cards != [] {
      GateBound(cards[..|cards| - 1], extract);
    }
  }

  /** A record is returned exactly when some card is kept and yields it. */
  lemma {:induction false} GateMembership(cards: seq<Card>, r: JobRecord, extract: Card -> JobRecord)
    ensures r in Gate(cards, extract) <==> exists i :: 0 <= i < |cards| && KeptBy(cards[i], extract) && extract(cards[i]) == r
    decreases |cards|
  {
    if cards != [] {
      var init := cards[..|cards| - 1];
      GateMembership(init, r, extract);
      if exists i :: 0 <= i < |init| && KeptBy(init[i], extract) && extract(init[i]) == r {
        var i :| 0 <= i < |init| && KeptBy(init[i], extract) && extract(init[i]) == r;
        assert cards[i] == init[i];
      }
      if exists i :: 0 <= i < |cards| && KeptBy(cards[i], extract) && extract(cards[i]) == r {
        var i :| 0 <= i < |cards| && KeptBy(cards[i], extract) && extract(cards[i]) == r;
        if i < |init| {
          assert init[i] == cards[i];
        }
      }
    }
  }

  /** When every card is kept, the records are the cards' records one for one, in card order and with duplicates. */
  lemma {:induction false} GateKeepsAll(cards: seq<Card>, extract: Card -> JobRecord)
    requires forall i :: 0 <= i < |cards| ==> KeptBy(cards[i], extract)
    ensures |Gate(cards, extract)| == |cards|
    ensures forall i :: 0 <= i < |cards| ==> Gate(cards, extract)[i] == extract(cards[i])
    decreases |cards|
  {
    if cards != [] {
      var init := cards[..|cards| - 1];
      assert forall i :: 0 <= i < |init| ==> init[i] == cards[i];
      GateKeepsAll(init, extract);
    }
  }

  /** No dedup: two identical kept cards give two identical records. */
  lemma DuplicatesKept(card: Card, extract: Card -> JobRecord)
    requires KeptBy(card, extract)
    ensures Gate([card, card], extract) == [extract(card), extract(card)]
  {
    assert [card][..0] == [];
    assert Gate([card], extract) == [extract(card)];
    assert [card, card][..1] == [card];
  }

  // --------------------------------------------------- the selector loop

  /** A selector the loop passes over: its lookup raised, or returned no cards. */
  predicate Passed(page: Page, selector: string) {
    var q := FindCards(page, selector);
    q.Raises? || q.cards == []
  }

  /** The first selector whose lookup returns a non-empty collection decides which cards are processed. */
  lemma {:induction false} ChosenCardsAt(page: Page, selectors: seq<string>, k: int)
    requires 0 <= k < |selectors|
    requires forall j :: 0 <= j < k ==> Passed(page, selectors[j])
    requires !Passed(page, selectors[k])
    ensures ChosenCards(page, selectors) == FindCards(page, selectors[k]).cards != []
    decreases k
  {
    if k > 0 {
      assert Passed(page, selectors[0]);
      assert forall j :: 0 <= j < k - 1 ==> selectors[1..][j] == selectors[j + 1];
      assert selectors[1..][k - 1] == selectors[k];
      ChosenCardsAt(page, selectors[1..], k - 1);
    }
  }

  /** No cards are processed exactly when every selector is passed over. */
  lemma {:induction false} ChosenCardsEmpty(page: Page, selectors: seq<string>)
    ensures ChosenCards(page, selectors) == [] <==> forall j :: 0 <= j < |selectors| ==> Passed(page, selectors[j])
    decreases |selectors|
  {
    if selectors != [] {
      ChosenCardsEmpty(page, selectors[1..]);
      assert forall j :: 1 <= j < |selectors| ==> selectors[j] == selectors[1..][j - 1];
    }
  }

  /**
   * No retry: once a selector returns cards, later selectors are never looked at,
   * even when those cards yield no record at all. Two pages that agree up to the
   * chosen selector give the same result.
   */
  lemma NoRetryAfterChosen(page: Page, other: Page, k: int)
    requires 0 <= k < |CardSelectors|
    requires forall j :: 0 <= j < k ==> Passed(page, CardSelectors[j])
    requires !Passed(page, CardSelectors[k])
    requires forall j :: 0 <= j <= k ==> FindCards(other, CardSelectors[j]) == FindCards(page, CardSelectors[j])
    ensures JobDetails(other) == JobDetails(page) == KeptRecords(FindCards(page, CardSelectors[k]).cards)
  {
    ChosenCardsAt(page, CardSelectors, k);
    ChosenCardsAt(other, CardSelectors, k);
  }

  /** When every selector is passed over, the result is empty. */
  lemma NothingFound(page: Page)
    requires forall j :: 0 <= j < |CardSelectors| ==> Passed(page, CardSelectors[j])
    ensures JobDetails(page) == []
  {
    ChosenCardsEmpty(page, CardSelectors);
  }

  /** The result has at most as many records as the chosen collection has cards, all of them titled. */
  lemma JobDetailsShape(page: Page)
    ensures |JobDetails(page)| <= |ChosenCards(page, CardSelectors)|
    ensures forall i :: 0 <= i < |JobDetails(page)| ==> JobDetails(page)[i].title != ""
  {
    GateBound(ChosenCards(page, CardSelectors), CardRecord);
    GateTitlesNonEmpty(ChosenCards(page, CardSelectors), CardRecord);
  }
}
