/**
 * The page and its job cards as plain values. A CSS lookup is a finite map
 * from selector strings to the elements the selector matches, in document
 * order; what the browser would compute is fixed in the value.
 */
module Dom {

  datatype Option<+T> = None | Some(value: T)

  /** One element as the extraction reads it: its visible text and its `datetime` attribute (`None` when absent). */
  datatype Element = Element(text: string, datetime: Option<string>)

  /**
   * One job card: the elements each selector matches inside it (a selector
   * that matches nothing, or whose lookup raises, has no entry), the card's
   * whole visible text, and whether an unexpected fault escapes extraction
   * from the card.
   */
  datatype Card = Card(matches: map<string, seq<Element>>, text: string, faulty: bool)

  /** `find_elements` inside a card: every match, in document order. */
  function FindAll(card: Card, selector: string): seq<Element> {
    if selector in card.matches then card.matches[selector] else []
  }

  /** `find_element` inside a card: the first match, or `None` where Selenium raises. */
  function FindFirst(card: Card, selector: string): Option<Element> {
    var all := FindAll(card, selector);
    if all == [] then None else Some(all[0])
  }

  /** What a page-level `find_elements` for job cards does: raise, or return the matching cards. */
  datatype Query = Raises | Returns(cards: seq<Card>)

  /** The results page: the outcome of each card selector's lookup (no entry: no match). */
  datatype Page = Page(queries: map<string, Query>)

  function FindCards(page: Page, selector: string): Query {
    if selector in page.queries then page.queries[selector] else Returns([])
  }

  /** The `job_info` dictionary built for one card. */
  datatype JobRecord = JobRecord(title: string, company: string, location: string, datePosted: string)

  /** The dictionary before any field is filled: every key present with value `''`. */
  const EmptyRecord := JobRecord("", "", "", "")
}
