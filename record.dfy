/**
 * `extract_single_job_details`: the four field lookups run one after the
 * other on one card, each filling its own field of the `job_info` record,
 * which starts with every field `''`.
 */
module Record {
  import opened Text
  import opened Dom
  import opened Chain
  import opened Location
  import opened DatePosted

  const TitleSelectors: seq<string> := [
    ".job-card-list__title",
    "h3 a",
    ".job-card-container__link",
    "h3.job-card-list__title",
    "[data-testid='job-title']",
    ".job-card-list__title-link",
    "h3",
    "a[data-control-name='job_search_job_title']"
  ]

  const CompanySelectors: seq<string> := [
    ".job-card-container__primary-description",
    ".job-card-list__company-name",
    "h4 a",
    ".job-card-container__company-name",
    "[data-testid='job-company']",
    "h4",
    "a[data-control-name='job_search_company_name']",
    ".artdeco-entity-lockup__subtitle"
  ]

  /** The record one card yields: each field is what its own lookup settles on. */
  function CardRecord(card: Card): JobRecord {
    JobRecord(
      FirstHit(card, TitleSelectors, TextProbe),
      FirstHit(card, CompanySelectors, TextProbe),
      LocationFrom(card, LocationSelectors),
      DateOf(card))
  }

  /** The four lookups in source order, each overwriting only its own field of the record. */
  method ExtractSingleJobDetails(card: Card) returns (jobInfo: JobRecord)
    ensures jobInfo == CardRecord(card)
  {
    jobInfo := EmptyRecord;
    var title := ResolveChain(card, TitleSelectors, TextProbe);
    jobInfo := jobInfo.(title := title);
    var company := ResolveChain(card, CompanySelectors, TextProbe);
    jobInfo := jobInfo.(company := company);
    var location := ExtractLocation(card, LocationSelectors);
    jobInfo := jobInfo.(location := location);
    var date := ExtractDate(card);
    jobInfo := jobInfo.(datePosted := date);
  }

  // ---------------------------------------------------------------- lemmas

  /** The title is the stripped text of the first match of the earliest title selector that reads non-empty. */
  lemma TitleAt(card: Card, k: int)
    requires WinsAt(card, TitleSelectors, TextProbe, k)
    ensures CardRecord(card).title == Strip(FindAll(card, TitleSelectors[k])[0].text) != ""
  {
    FirstHitAt(card, TitleSelectors, TextProbe, k);
  }

  /** The company follows the same rule over the company selectors. */
  lemma CompanyAt(card: Card, k: int)
    requires WinsAt(card, CompanySelectors, TextProbe, k)
    ensures CardRecord(card).company == Strip(FindAll(card, CompanySelectors[k])[0].text) != ""
  {
    FirstHitAt(card, CompanySelectors, TextProbe, k);
  }

  /** The title stays `''` exactly when no title selector's first match has non-blank text. */
  lemma UntitledIff(card: Card)
    ensures CardRecord(card).title == ""
      <==> forall j :: 0 <= j < |TitleSelectors| ==> ProbeAt(card, TitleSelectors[j], TextProbe) == ""
  {
    FirstHitCases(card, TitleSelectors, TextProbe);
  }

  /** Title, company and location carry no surrounding whitespace; the date may, through a verbatim `datetime`. */
  lemma FieldsStripped(card: Card)
    ensures var r := CardRecord(card);
      Strip(r.title) == r.title && Strip(r.company) == r.company && Strip(r.location) == r.location
  {
    TextChainIsStripped(card, TitleSelectors);
    TextChainIsStripped(card, CompanySelectors);
    LocationShape(card, LocationSelectors);
    var r := LocationFrom(card, LocationSelectors);
    if r != "" {
      var k, j :| 0 <= k < |LocationSelectors| && 0 <= j < |FindAll(card, LocationSelectors[k])|
        && r == Strip(FindAll(card, LocationSelectors[k])[j].text);
      StripIdempotent(FindAll(card, LocationSelectors[k])[j].text);
    }
  }

  /** The card's whole text feeds only the date: replacing it leaves title, company and location as they were. */
  lemma TextFeedsOnlyDate(card: Card, text: string)
    ensures CardRecord(card.(text := text)) == CardRecord(card).(datePosted := DateOf(card.(text := text)))
  {
    var other := card.(text := text);
    FirstHitReadsMatches(card, other, TitleSelectors, TextProbe);
    FirstHitReadsMatches(card, other, CompanySelectors, TextProbe);
    LocationReadsMatches(card, other, LocationSelectors);
  }

  /** A card no selector matches keeps the defaults, except for what the text fallback finds. */
  lemma UnmatchedCard(card: Card)
    requires card.matches == map[]
    ensures CardRecord(card) == EmptyRecord.(datePosted := DateFallback(card.text))
  {
    FirstHitCases(card, TitleSelectors, TextProbe);
    FirstHitCases(card, CompanySelectors, TextProbe);
    FirstHitCases(card, DateSelectors, DateProbe);
    NoElementsNoLocation(card, LocationSelectors);
  }

  /** With no matches and no line mentioning a date, the record is the all-`''` default. */
  lemma BlankCardIsDefault(card: Card)
    requires card.matches == map[]
    requires forall j :: 0 <= j < |SplitOn(card.text, '\n')| ==> !MentionsDate(SplitOn(card.text, '\n')[j])
    ensures CardRecord(card) == EmptyRecord
  {
    UnmatchedCard(card);
    FirstDateLineEmpty(SplitOn(card.text, '\n'));
  }
}
