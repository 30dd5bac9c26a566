/**
 * The posting-date lookup of `extract_single_job_details`: a first-hit chain
 * over date selectors that prefers the `datetime` attribute, and, only when
 * that finds nothing, a line-by-line scan of the card's text for relative-date
 * words.
 */
module DatePosted {
  import opened Text
  import opened Dom
  import opened Chain

  const DateSelectors: seq<string> := [
    ".job-card-list__footer-wrapper time",
    "time",
    ".job-card-container__footer-item time",
    "[data-testid='job-date']",
    ".job-card-list__footer time"
  ]

  /** Substrings that mark relative-date wording such as "3 days ago". */
  const DatePatterns: seq<string> := ["ago", "day", "week", "month", "hour", "minute"]

  /** A line mentions a relative date: some pattern occurs in its lower-cased form. */
  predicate MentionsDate(line: string) {
    AnyIn(DatePatterns, Lower(line))
  }

  /** The stripped first line that mentions a relative date; `''` when none does. */
  function FirstDateLine(lines: seq<string>): string
    decreases |lines|
  {
    if lines == [] then ""
    else if MentionsDate(lines[0]) then Strip(lines[0])
    else FirstDateLine(lines[1..])
  }

  /** The fallback scan over `card_text.split('\n')`. */
  function DateFallback(text: string): string {
    FirstDateLine(SplitOn(text, '\n'))
  }

  /** The date the card yields: the chain's value when non-empty, otherwise the fallback's. */
  function DateOf(card: Card): string {
    var structured := FirstHit(card, DateSelectors, DateProbe);
    if structured != "" then structured else DateFallback(card.text)
  }

  /** The fallback loop over the card's lines, stopping at the first one that mentions a date. */
  method ScanForDate(text: string) returns (date: string)
    ensures date == DateFallback(text)
  {
    date := "";
    var lines := SplitOn(text, '\n');
    var i := 0;
    while i < |lines|
      invariant 0 <= i <= |lines|
      invariant date == ""
      invariant FirstDateLine(lines) == FirstDateLine(lines[i..])
    {
      assert lines[i..][1..] == lines[i + 1..];
      if MentionsDate(lines[i]) {
        date := Strip(lines[i]);
        break;
      }
      i := i + 1;
    }
  }

  /** Both phases in order: the fallback runs only when the selector chain leaves the date empty. */
  method ExtractDate(card: Card) returns (date: string)
    ensures date == DateOf(card)
  {
    date := ResolveChain(card, DateSelectors, DateProbe);
    if date == "" {
      date := ScanForDate(card.text);
    }
  }

  // ---------------------------------------------------------------- lemmas

  /** A line that mentions a relative date is never blank once stripped. */
  lemma MentionedLineNotBlank(line: string)
    requires MentionsDate(line)
    ensures Strip(line) != ""
  {
    AnyInIff(DatePatterns, Lower(line));
    var k :| 0 <= k < |DatePatterns| && Contains(Lower(line), DatePatterns[k]);
    ContainsNonSpace(Lower(line), DatePatterns[k], 0);
    var c :| 0 <= c < |line| && !IsSpace(Lower(line)[c]);
    LowerProperties(line);
    StripSpec(line);
  }

  /** Line `k` is the first of `lines` that mentions a relative date. */
  ghost predicate FirstMentionAt(lines: seq<string>, k: int) {
    0 <= k < |lines| && MentionsDate(lines[k]) && forall j :: 0 <= j < k ==> !MentionsDate(lines[j])
  }

  /** The scan yields the stripped first mentioning line, and that value is non-empty. */
  lemma {:induction false} FirstDateLineAt(lines: seq<string>, k: int)
    requires FirstMentionAt(lines, k)
    ensures FirstDateLine(lines) == Strip(lines[k]) != ""
    decreases k
  {
    if k == 0 {
      MentionedLineNotBlank(lines[0]);
    } else {
      assert !MentionsDate(lines[0]);
      assert FirstMentionAt(lines[1..], k - 1) by {
        forall j | 0 <= j < k - 1 ensures lines[1..][j] == lines[j + 1] {
        }
      }
      FirstDateLineAt(lines[1..], k - 1);
    }
  }

  /** The scan leaves the date `''` exactly when no line mentions a relative date. */
  lemma {:induction false} FirstDateLineEmpty(lines: seq<string>)
    ensures FirstDateLine(lines) == "" <==> forall j :: 0 <= j < |lines| ==> !MentionsDate(lines[j])
    decreases |lines|
  {
    if lines != [] {
      if MentionsDate(lines[0]) {
        MentionedLineNotBlank(lines[0]);
      } else {
        FirstDateLineEmpty(lines[1..]);
        forall j | 1 <= j < |lines| ensures lines[j] == lines[1..][j - 1] {
        }
      }
    }
  }

  /** The chain decides whenever it finds a value; the card text is then never consulted. */
  lemma StructuredDateWins(card: Card, text: string)
    requires FirstHit(card, DateSelectors, DateProbe) != ""
    ensures DateOf(card) == DateOf(card.(text := text)) == FirstHit(card, DateSelectors, DateProbe)
  {
    FirstHitReadsMatches(card, card.(text := text), DateSelectors, DateProbe);
  }

  /** An example: the line `Intel` mentions no relative date. */
  lemma CompanyLineHasNoDate()
    ensures !MentionsDate("Intel")
  {
    var lowered := "intel";
    assert Lower("Intel") == lowered;
    forall k | 0 <= k < |DatePatterns| ensures !Contains(lowered, DatePatterns[k]) {
      assert DatePatterns[k][0] in "adwmh";
      MissingFirstChar(lowered, DatePatterns[k]);
    }
    AnyInIff(DatePatterns, lowered);
  }

  /** An example: the line ` 2 days ago ` mentions a relative date; the line is pinned by `requires`. */
  lemma PostedLineHasDate(line: string)
    requires line == " 2 days ago "
    ensures MentionsDate(line)
  {
    LowerUnchanged(line);
    assert line[8] == 'a' && line[9] == 'g' && line[10] == 'o';
    assert line[8..11] == "ago";
    assert OccursAt(line, "ago", 8);
    ContainsIff(line, "ago");
    AnyInIff(DatePatterns, line);
    assert DatePatterns[0] == "ago";
  }

  /** An example: ` 2 days ago ` strips to `2 days ago`. */
  lemma PostedLineStripped()
    ensures Strip(" 2 days ago ") == "2 days ago"
  {
    var line := " 2 days ago ";
    assert StripLeft(line) == line[1..];
    assert StripRight(line[1..]) == line[1..11];
  }

  /**
   * An example: a relative date under no date selector is recovered from the
   * card text, stripped. The two-line text is pinned by `requires`.
   */
  lemma FallbackExample(text: string)
    requires text == "Intel\n 2 days ago "
    ensures DateFallback(text) == "2 days ago"
  {
    var lines := ["Intel", " 2 days ago "];
    SplitOnJoin(lines, '\n');
    assert Join(lines, "\n") == text;
    CompanyLineHasNoDate();
    PostedLineHasDate(lines[1]);
    PostedLineStripped();
    assert FirstMentionAt(lines, 1);
    FirstDateLineAt(lines, 1);
  }
}
