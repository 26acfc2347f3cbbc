/**
 * The identifier resolver, `get_story_id`: turns a story URL or a chapter URL
 * into the numeric id of the story. The two HTTP probes it makes are oracle
 * parameters: `storyExists(id)` is whether the story-info request for id
 * succeeds, `chapterParentUrl(id)` is the story URL the chapter-info request
 * for id returns, or None when that request fails. Next to the resolved id the
 * model records which probes were made, in order.
 */
module Resolver {
  import opened Wrappers
  import opened Digits

  /** One HTTP probe, keyed by the candidate id it was made for. */
  datatype Lookup = StoryLookup(id: string) | ChapterLookup(id: string)

  /** The id returned (None for Python's `None`) and the probes made on the way. */
  datatype Resolution = Resolution(storyId: Option<string>, lookups: seq<Lookup>)

  /**
   * What `get_story_id` needs of its inputs in order not to raise: when it falls
   * back to a chapter's story URL, that URL holds a digit, for `.group()` is
   * otherwise called on the `None` that `re.search` returns.
   */
  predicate ParentUrlHasDigit(reference: string, storyExists: string -> bool, chapterParentUrl: string -> Option<string>) {
    match FirstDigitRun(reference)
    case None => true
    case Some(urlId) =>
      storyExists(urlId) || chapterParentUrl(urlId).None? || HasDigit(chapterParentUrl(urlId).value)
  }

  /**
   * `get_story_id(reference)`: the first digit run of the reference is tried as a
   * story id, then as a chapter id whose story URL gives the id.
   */
  function ResolveStoryId(reference: string, storyExists: string -> bool, chapterParentUrl: string -> Option<string>): (r: Resolution)
    requires ParentUrlHasDigit(reference, storyExists, chapterParentUrl)
    ensures r.storyId.Some? ==> |r.storyId.value| > 0 && AllDigits(r.storyId.value)
    ensures r.lookups == [] <==> !HasDigit(reference)
    ensures r.lookups != [] ==>
      var urlId := FirstDigitRun(reference).value;
      && r.lookups[0] == StoryLookup(urlId)
      && (storyExists(urlId) ==> r.lookups == [StoryLookup(urlId)])
      && (!storyExists(urlId) ==> r.lookups == [StoryLookup(urlId), ChapterLookup(urlId)])
  {
    match FirstDigitRun(reference)
    case None => Resolution(None, [])
    case Some(urlId) =>
      if storyExists(urlId) then
        Resolution(Some(urlId), [StoryLookup(urlId)])
      else
        match chapterParentUrl(urlId)
        case None => Resolution(None, [StoryLookup(urlId), ChapterLookup(urlId)])
        case Some(storyUrl) =>
          Resolution(Some(FirstDigitRun(storyUrl).value), [StoryLookup(urlId), ChapterLookup(urlId)])
  }

  /** A reference without a digit resolves to None and no probe is made. */
  lemma NoDigitIsNotFound(reference: string, storyExists: string -> bool, chapterParentUrl: string -> Option<string>)
    requires !HasDigit(reference)
    ensures ParentUrlHasDigit(reference, storyExists, chapterParentUrl)
    ensures ResolveStoryId(reference, storyExists, chapterParentUrl) == Resolution(None, [])
  {
  }

  /**
   * When the story probe accepts the leftmost maximal digit run, that run is the
   * result and the chapter probe is never made.
   */
  lemma StoryIdWins(reference: string, start: nat, end: nat, storyExists: string -> bool, chapterParentUrl: string -> Option<string>)
    requires IsLeftmostMaximalRun(reference, start, end)
    requires storyExists(reference[start..end])
    ensures ParentUrlHasDigit(reference, storyExists, chapterParentUrl)
    ensures ResolveStoryId(reference, storyExists, chapterParentUrl)
         == Resolution(Some(reference[start..end]), [StoryLookup(reference[start..end])])
  {
    LeftmostMaximalRunIsMatch(reference, start, end);
  }

  /** When the story probe accepts the candidate, the chapter oracle has no influence on the outcome. */
  lemma StoryIdIgnoresChapterOracle(reference: string, storyExists: string -> bool,
                                    chapterParentUrl: string -> Option<string>, otherParentUrl: string -> Option<string>)
    requires HasDigit(reference) && storyExists(FirstDigitRun(reference).value)
    ensures ParentUrlHasDigit(reference, storyExists, chapterParentUrl)
    ensures ParentUrlHasDigit(reference, storyExists, otherParentUrl)
    ensures ResolveStoryId(reference, storyExists, chapterParentUrl)
         == ResolveStoryId(reference, storyExists, otherParentUrl)
  {
  }

  /** Neither a story nor a chapter with the candidate id: None, after both probes. */
  lemma NeitherStoryNorChapter(reference: string, storyExists: string -> bool, chapterParentUrl: string -> Option<string>)
    requires HasDigit(reference)
    requires !storyExists(FirstDigitRun(reference).value)
    requires chapterParentUrl(FirstDigitRun(reference).value).None?
    ensures ParentUrlHasDigit(reference, storyExists, chapterParentUrl)
    ensures var urlId := FirstDigitRun(reference).value;
      ResolveStoryId(reference, storyExists, chapterParentUrl)
      == Resolution(None, [StoryLookup(urlId), ChapterLookup(urlId)])
  {
  }

  /**
   * A chapter id: the result is the leftmost maximal digit run of the story URL
   * that the chapter probe returns, after both probes.
   */
  lemma ChapterIdGivesParentStory(reference: string, storyExists: string -> bool, chapterParentUrl: string -> Option<string>,
                                  start: nat, end: nat)
    requires HasDigit(reference)
    requires !storyExists(FirstDigitRun(reference).value)
    requires chapterParentUrl(FirstDigitRun(reference).value).Some?
    requires IsLeftmostMaximalRun(chapterParentUrl(FirstDigitRun(reference).value).value, start, end)
    ensures ParentUrlHasDigit(reference, storyExists, chapterParentUrl)
    ensures var urlId := FirstDigitRun(reference).value;
      var storyUrl := chapterParentUrl(urlId).value;
      ResolveStoryId(reference, storyExists, chapterParentUrl)
      == Resolution(Some(storyUrl[start..end]), [StoryLookup(urlId), ChapterLookup(urlId)])
  {
    var storyUrl := chapterParentUrl(FirstDigitRun(reference).value).value;
    LeftmostMaximalRunIsMatch(storyUrl, start, end);
  }
}
