# Job-card extraction engine, modelled in Dafny

`job_scraper.py` logs into a job board and reads a results page. Then it pulls
one record out of each job card: title, company, location and posting date.
This project models the deterministic part of that in Dafny 4.11 and proves
properties about it:

- **Card discovery** (`extract_job_details`). Five card selectors are tried in
  order. The first one whose lookup returns a non-empty collection is
  processed, card by card.
  - A card whose extraction faults is skipped.
  - Only records with a non-empty title are kept.
  - The selector loop stops after that collection, even if it yields no record.
- **Per-card extraction** (`extract_single_job_details`). The fields start as
  `''` and are filled in this order:
  - **Title and company:** a first-non-empty-wins selector chain over the
    stripped text of each selector's first match.
  - **Location:** nested loops over selectors and over every element each
    selector matches, with a shape test on each candidate.
  - **Date:** a selector chain that prefers the `datetime` attribute. If that
    finds nothing, the card's text is scanned line by line for relative-date
    words.
- **Output shaping** (the pure part of `save_to_csv`): column selection and
  renaming, and the file name derived from the search term.

The browser is replaced by values (`dom.dfy`):

- A `Card` maps each selector string to the elements it matches, in document
  order. An `Element` has its text and an optional `datetime` attribute. A card
  also has its whole visible text and a `faulty` flag.
- A `Page` maps each card selector to `Raises` or `Returns(cards)`.
- A selector with no entry matches nothing. Inside a card, "matches nothing"
  is also how a raising `find_element` appears.
- `FindAll` stands for `find_elements`: every match of a selector in a card.
  `FindFirst` stands for `find_element`: the first of those matches, or `None`
  where Selenium would raise. Both are part of this abstraction, not modelled
  operations.

The source is imperative, and the model keeps that form. Its loops are
`while` loops, with `break` where the source breaks, in these methods:

- `Chain.ResolveChain`
- `Location.ExtractLocation`
- `DatePosted.ScanForDate`
- `Cards.ExtractJobDetails`, which also uses `continue` where the source does

`DatePosted.ExtractDate` and `Record.ExtractSingleJobDetails` have no loop of
their own: they call these methods in source order.

Each method is proved equal to a specification function: `FirstHit`,
`LocationFrom`, `DateFallback`, `DateOf`, `CardRecord` and `JobDetails`. The
properties are proved as lemmas about those functions.

The string built-ins (`strip`, `split`, `split('\n')`, `lower`, `in`,
`replace`) are modelled over ASCII in `text.dfy`. Whitespace is the ASCII part
of `str.isspace`, and `lower` changes only `A`..`Z`.

Files:

| file | module | contents |
|---|---|---|
| `text.dfy` | `Text` | the string built-ins |
| `dom.dfy` | `Dom` | elements, cards, pages, `JobRecord` |
| `chain.dfy` | `Chain` | the first-hit selector chain |
| `location.dfy` | `Location` | the location loops and their test |
| `date.dfy` | `DatePosted` | the date chain and the text fallback |
| `record.dfy` | `Record` | one card's record |
| `cards.dfy` | `Cards` | card discovery and the card loop |
| `output.dfy` | `Output` | columns and file name |

### A blank accepted candidate does not end the search

In `job_scraper.py:216-225`, an accepted location candidate that is `''` ends
only the inner element loop: the selector's later elements are skipped. The
outer loop then carries on, because the location is still empty. The model
states this in `Location.EmptyCandidateEndsSelector` and
`Location.BlankHidesRemote`, and `Location.LocationEmptyIff` says exactly when
the location stays `''`.

## Model

| member | source | states |
|---|---|---|
| `Chain.ResolveChain` | job_scraper.py:174-181 | The selector loop (overwrite, stop at the first non-empty value, skip a raising lookup) returns exactly `FirstHit`: the reading of the earliest selector that reads non-empty, or `''`. |
| `Chain.FirstHitAt` | job_scraper.py:174-181 | First match wins. If selector `k` reads non-empty and every earlier selector reads `''`, selector `k`'s reading is the value, whatever later selectors hold. |
| `Chain.FirstHitCases` | job_scraper.py:195-202 | The chain yields `''` exactly when every selector reads `''`. Otherwise some selector wins it. |
| `Chain.FirstHitAppend` | job_scraper.py:174-181 | Later selectors are consulted only when all earlier ones read `''`. |
| `Chain.FirstHitReadsMatches` | job_scraper.py:238-247 | A chain depends only on what the selectors match. The card's whole text and its fault flag never affect it. |
| `Chain.TextChainIsStripped` | job_scraper.py:177 | A title or company value has no surrounding whitespace. |
| `Chain.DatetimeNotStripped` | job_scraper.py:242 | A non-empty `datetime` attribute is used verbatim, even when it is only whitespace. |
| `Location.ExtractLocation` | job_scraper.py:213-227 | The nested selector and element loops, with their two `break`s, return exactly `LocationFrom`. |
| `Location.EmptyGuardRedundant` | job_scraper.py:219-221 | Grouped as Python parses it, the `text and` guard is redundant: the test equals "has an indicator or at most four words", and `''` passes it. |
| `Location.PrecedenceQuirk` | job_scraper.py:219-221 | The test differs from the grouping `text and (indicator or short)` on exactly one input, the empty candidate. |
| `Location.LongCandidateNeedsIndicator` | job_scraper.py:219-221 | A candidate of five or more words passes if and only if it contains an indicator or a comma. |
| `Location.FirstAcceptedNone` | job_scraper.py:216-223 | The element loop finds nothing if and only if no element's stripped text passes. |
| `Location.FirstAcceptedSome` | job_scraper.py:216-223 | When the element loop finds a candidate, some element is the first to pass. |
| `Location.FirstPassingFound` | job_scraper.py:216-223 | The element loop's value is the stripped text of the first passing element. |
| `Location.LocationAt` | job_scraper.py:213-227 | If every earlier selector's first passing candidate is missing or `''`, and selector `k`'s first passing element has non-empty text, that text is the location. |
| `Location.EmptyCandidateEndsSelector` | job_scraper.py:216-225 | If a selector's first passing candidate is `''`, the rest of its elements are skipped and the result is what the later selectors give. |
| `Location.BlankHidesRemote` | job_scraper.py:216-225 | Example: a blank element ahead of `Remote` under the same selector leaves the location `''`. |
| `Location.LocationShape` | job_scraper.py:213-227 | The location is `''`, or it passes the test and is the stripped text of some element that some location selector matched. |
| `Location.LocationNeverProse` | job_scraper.py:219-221 | A chosen location with five or more words always contains an indicator or a comma. |
| `Location.LocationReadsMatches` | job_scraper.py:213-227 | The location depends only on what the selectors match. |
| `Location.LocationEmptyIff` | job_scraper.py:213-227 | The location stays `''` if and only if every selector misses: none of its elements passes the test, or the first that passes is blank. |
| `Location.NoElementsNoLocation` | job_scraper.py:213-227 | When no selector matches an element, the location stays `''`. |
| `DatePosted.ScanForDate` | job_scraper.py:252-258 | The line loop returns exactly `DateFallback`: the stripped first line of `text.split('\n')` that mentions a relative date, or `''`. |
| `DatePosted.ExtractDate` | job_scraper.py:238-260 | The chain runs first. The text fallback runs only when the chain's value is `''`. The result is `DateOf`. |
| `DatePosted.MentionedLineNotBlank` | job_scraper.py:256-257 | A line that mentions a relative date is never `''` once stripped. |
| `DatePosted.FirstDateLineAt` | job_scraper.py:255-258 | If line `k` is the first to mention a relative date, the fallback gives its stripped text, which is non-empty. |
| `DatePosted.FirstDateLineEmpty` | job_scraper.py:255-258 | The fallback gives `''` if and only if no line mentions a relative date. |
| `DatePosted.StructuredDateWins` | job_scraper.py:250 | When the chain finds a date, that date is the result, whatever the card's text says. |
| `DatePosted.CompanyLineHasNoDate` | job_scraper.py:256 | Example: the line `Intel` mentions no relative date. |
| `DatePosted.PostedLineHasDate` | job_scraper.py:256 | Example: the line ` 2 days ago ` mentions a relative date. |
| `DatePosted.PostedLineStripped` | job_scraper.py:257 | Example: ` 2 days ago ` strips to `2 days ago`. |
| `DatePosted.FallbackExample` | job_scraper.py:252-258 | Example: card text `Intel` + newline + ` 2 days ago ` gives the date `2 days ago`. |
| `Record.ExtractSingleJobDetails` | job_scraper.py:153-262 | The four lookups run in order, each overwriting only its own field. The record is `CardRecord`. |
| `Record.TitleAt` | job_scraper.py:174-181 | The title is the stripped text of the first match of the winning title selector, and it is non-empty. |
| `Record.CompanyAt` | job_scraper.py:195-202 | The same rule gives the company over the company selectors. |
| `Record.UntitledIff` | job_scraper.py:174-181 | The title is `''` if and only if no title selector's first match has non-blank text. |
| `Record.FieldsStripped` | job_scraper.py:174-227 | Title, company and location carry no surrounding whitespace. |
| `Record.TextFeedsOnlyDate` | job_scraper.py:250-258 | Replacing the card's whole text changes at most the date. |
| `Record.UnmatchedCard` | job_scraper.py:155-160 | A card that no selector matches keeps the `''` defaults, except for what the text fallback finds. |
| `Record.BlankCardIsDefault` | job_scraper.py:155-160 | With no matches and no date line, the record is the all-`''` default. |
| `Cards.ExtractJobDetails` | job_scraper.py:126-143 | The selector loop with the card loop nested in it returns exactly `JobDetails`. That is the gated records of the first non-empty collection. |
| `Cards.GateAppend` | job_scraper.py:132-139 | Cards are processed independently and in order. The records of a concatenation are the concatenated records. |
| `Cards.FaultySkipped` | job_scraper.py:137-139 | A card that faults contributes nothing. The cards before and after it are processed as if it were absent. |
| `Cards.GateTitlesNonEmpty` | job_scraper.py:135-136 | Every record returned has a non-empty title. |
| `Cards.GateBound` | job_scraper.py:132-136 | There are at most as many records as cards. |
| `Cards.GateMembership` | job_scraper.py:132-136 | A record is returned if and only if some card does not fault, has a title, and yields that record. |
| `Cards.GateKeepsAll` | job_scraper.py:132-136 | When every card is kept, record `i` is card `i`'s record, with no reordering and no dedup. |
| `Cards.DuplicatesKept` | job_scraper.py:135-136 | Two identical kept cards give two identical records. |
| `Cards.ChosenCardsAt` | job_scraper.py:126-140 | The first selector whose lookup returns a non-empty collection decides which cards are processed. Raising and empty lookups before it are passed over. |
| `Cards.ChosenCardsEmpty` | job_scraper.py:126-143 | No cards are processed if and only if every selector's lookup raises or is empty. |
| `Cards.NoRetryAfterChosen` | job_scraper.py:140 | Once a collection is processed, later selectors are never looked at, even when the collection yields no record. |
| `Cards.NothingFound` | job_scraper.py:141-143 | When every lookup raises or is empty, the result is empty. |
| `Cards.JobDetailsShape` | job_scraper.py:132-136 | The result has at most as many records as the chosen collection has cards, and every record has a title. |
| `Output.AsDict` | job_scraper.py:155-160 | A record's dictionary has exactly the keys `title`, `company`, `location` and `date_posted`. |
| `Output.RowOrder` | job_scraper.py:268 | The columns come out as title, company, location, date posted. |
| `Output.RowRoundTrip` | job_scraper.py:268 | A row holds the whole record: reading it back by position gives the record. |
| `Output.TableShape` | job_scraper.py:265-270 | A table is produced if and only if there are records. It has the renamed header and one row per record, in order. Each row reads back as its record. |
| `Output.FilenameShape` | job_scraper.py:272 | The file name is `job_details_` + a term-length middle + `.csv`, and contains no space. |
| `Output.FilenameRecoversTerm` | job_scraper.py:272 | For a term without `_`, turning the middle's `_` back into spaces gives the term. |
| `Output.FilenameInjective` | job_scraper.py:272 | Distinct terms without `_` get distinct file names. |
| `Output.FilenameCollision` | job_scraper.py:272 | Example: `data analyst` and `data_analyst` get the same file name. |
| `Text.StripSpec` | job_scraper.py:177 | `strip()` keeps the middle slice between whitespace-only ends. What it keeps neither starts nor ends with whitespace, and it is `''` exactly when the input is all whitespace. |
| `Text.StripIdempotent` | job_scraper.py:217 | Stripping twice is stripping once. |
| `Text.SplitSpec` | job_scraper.py:221 | `split()` words are non-empty and contain no whitespace. There are none exactly when the input is all whitespace. |
| `Text.SplitJoin` | job_scraper.py:221 | `split()` undoes joining non-empty, whitespace-free words with single spaces. |
| `Text.SplitOnJoin` | job_scraper.py:254 | `split('\n')` undoes joining newline-free lines with newlines. |
| `Text.JoinSplitOn` | job_scraper.py:254 | Joining the pieces of `split('\n')` with newlines gives back the text. |
| `Text.LowerProperties` | job_scraper.py:219-221 | `lower()` leaves no `A`..`Z`, keeps whitespace as whitespace, and is idempotent. |
| `Text.ContainsIff` | job_scraper.py:256 | `p in s` holds if and only if `p` occurs in `s` at some index. |
| `Text.AnyInIff` | job_scraper.py:219-221 | `any(p in s for p in pats)` holds if and only if some pattern is contained in `s`. |
| `Text.ReplaceCharInverse` | job_scraper.py:272 | After `replace(' ', '_')` no space is left. If the term had no `_`, replacing `_` by a space restores it. |

## Left out

- `login`, `main` and `load_inputs` are not modelled. They cover credentials, clicks, browser lifecycle, navigation, scrolling, sleeps and JSON file I/O; none of it is extraction logic.
- The `print` diagnostics, the `page_source` length report, the pandas DataFrame and `to_csv` writing are not modelled. Only the column projection and the file name are.
- Selenium's CSS matching is not modelled. A card is the map from selector to matches that the browser would compute.
- Unicode is not modelled: whitespace is the ASCII part of `str.isspace`, and `lower` changes only `A`..`Z`.
- Raising lookups inside a card are merged with "no match". A raising `find_element` and one that matches nothing are both "no entry". Both are caught and followed by `continue`, so the outcome is the same.
- Element-level faults are not modelled: a stale element while reading `.text` or `datetime`, or a fault in the middle of a location selector's element loop. In the source each such fault would abandon only the current selector.
- Card-level faults are modelled only as the `faulty` flag. `Cards.ExtractJobDetails` skips a flagged card as the handler at lines 137-139 does. `Record.ExtractSingleJobDetails` always completes, because every lookup in the source is under its own handler.
- `BaseException`s that `except Exception` does not catch, such as keyboard interrupts, are not modelled.
- Concurrency and timing are not modelled: there are none in the extraction code.
