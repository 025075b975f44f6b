/**
 * The combining part of `validate_rss_feed`: run the structural check, read
 * the feed text once, run the CDATA and binary-content checks on it, and
 * answer true only if all three returned true. Every exception a check raises
 * is caught at this level and turns into false, as does a file that cannot
 * be opened.
 */
module RssValidation {
  import opened Outcomes
  import opened Cdata
  import opened BinaryScan
  import opened RequiredElements

  /** The verdict, in terms of the three checks' outcomes. */
  predicate FeedVerdict(feed: FeedFile)
  {
    && RequiredElementsOutcome(feed) == Returned(true)
    && feed.Parsed?
    && CheckCdataSections(feed.content) == Returned(true)
    && BinaryOutcome(feed.content) == Returned(true)
  }

  /**
   * A feed is accepted exactly when it was parsed into a complete tree, its
   * text has as many CDATA openers as closers, and no character of it is
   * non-printable.
   */
  lemma FeedVerdictMeans(feed: FeedFile)
    ensures FeedVerdict(feed) <==>
      && feed.Parsed?
      && CompleteFeed(feed.root)
      && Count(feed.content, CdataOpen) == Count(feed.content, CdataClose)
      && forall i :: 0 <= i < |feed.content| ==> !NonPrintable(feed.content[i])
  {
    PassesExactlyWhenComplete(feed);
    if feed.Parsed? {
      BinaryOutcomeCharacterization(feed.content);
    }
  }

  /**
   * Correcting the per-item append would not change any verdict: the
   * `NameError` and the intended missing-element error both end in false.
   */
  lemma VerdictIgnoresItemFix(feed: FeedFile)
    ensures FeedVerdict(feed) <==>
      && IntendedRequiredElementsOutcome(feed) == Returned(true)
      && feed.Parsed?
      && CheckCdataSections(feed.content) == Returned(true)
      && BinaryOutcome(feed.content) == Returned(true)
  {
    FixKeepsVerdict(feed);
  }

  /** `validate_rss_feed()` after the build step, given the feed file it would read. */
  method ValidateRssFeed(feed: FeedFile) returns (valid: bool)
    ensures valid == FeedVerdict(feed)
  {
    var requiredElementsPresent := CheckRssForRequiredElements(feed);
    if requiredElementsPresent.Raised? {
      return false;
    }
    if feed.Absent? {
      // opening the missing file raises, and the handler answers false
      return false;
    }
    var content := feed.content;
    var cdataSectionsValid := CheckCdataSections(content);
    if cdataSectionsValid.Raised? {
      return false;
    }
    var noBinaryContentFound := CheckForBinaryContent(content);
    if noBinaryContentFound.Raised? {
      return false;
    }
    BinaryOutcomeCharacterization(content);
    return requiredElementsPresent.value && cdataSectionsValid.value && noBinaryContentFound.value;
  }
}
