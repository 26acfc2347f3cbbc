# Wattpad story crawler: resolver and text assembler

This project models the logic of `crawler.py`, a script that downloads a story
from Wattpad and saves it as one text file. It covers three pieces:

- **Resolving a reference** (`get_story_id`). The reference is a story URL or a
  chapter URL. The resolver takes its first run of decimal digits and tries it as
  a story id. If that fails, it tries the run as a chapter id and takes the
  first digit run of the chapter's story URL.
- **Assembling the book** (`download_story`). A loop over `enumerate(parts)`
  skips drafts and deleted parts. For every other part it appends a block
  `Chapter <index> <title> <modifyDate>`, where the index is the part's position
  in the *full* list. The text is then put under a header holding the title,
  the create and modify dates, the author and the category labels.
- **Filtering categories** (the comprehension at line 52): the story's category
  codes become labels through the categories table. Codes the table does not
  know are dropped.

The translation table `ILLEAGAL_FILENAME_CHARACTERS` is modelled as well. It is
defined but never applied: `download_story` opens the raw title plus ".txt".

Every remote call is a parameter of the model:

- `storyExists(id)`: whether the story-info request succeeds.
- `chapterParentUrl(id)`: the story URL of the chapter-info reply, or None when
  the request fails.
- `chapterText(id)`: the chapter request plus the HTML-to-text conversion.
- `renderList`: Python's `%s` rendering of a list of labels.
- The categories table is a plain `map<int, string>`.

Modules:

- `Wrappers`: `Option`.
- `Digits`: `re.search(r'\d+', …)` and `%d`.
- `Resolver`: `get_story_id`.
- `Assembler`: parts, categories, chapter blocks, the book and
  `download_story`.
- `FileNames`: the translation table and the name of the file that is opened.

The resolver records which probes it makes, in order. This is how the model
states that the chapter probe is never made once the story probe succeeds.
`DownloadStory` returns, next to the book, the ids whose chapter text it
requested.

The table's name, `ILLEAGAL_FILENAME_CHARACTERS`, suggests it was meant to make
the output filename safe, but the code never applies it. The model follows the
code: `DownloadStory` returns `FileNames.TextFileName(title)`. `OpenedNameIsSanitizedIff`
proves that this equals the sanitised name exactly when the title has no
illegal character.

Some contracts below only take a format string or a concatenation apart into
its pieces: `Assembler.BookLayout` and `FileNames.TextFileName`. Their real
content is in `Assembler.BookWithoutEligibleParts` and
`FileNames.OpenedNameIsSanitizedIff`. Rows for members without a contract of
their own (the spec functions `Assembler.Chapters`, `Assembler.Book` and
others) say what they define; the lemmas in the rows next to them state what is
proved about them.

## Model

| member | source | states |
|---|---|---|
| Digits.SearchDigits | crawler.py:91 | there is no match exactly when the string has no digit; otherwise the span is a non-empty run of digits, with no digit before its start and none right after its end |
| Digits.FirstDigitRun | crawler.py:96 | `match.group()` is None exactly when there is no digit; otherwise it is a non-empty, all-digit substring, taken at the leftmost maximal run |
| Digits.LeftmostMaximalRunIsMatch | crawler.py:91 | the leftmost maximal digit run is unique: any span with that property is the one the search returns, and its text is the group |
| Digits.DecimalString | crawler.py:78 | `%d` of a non-negative index is a non-empty numeral of digits with no leading zero, except for "0" |
| Digits.ParseDecimalString | crawler.py:78 | reading the rendered index back gives the index |
| Digits.DecimalStringParse | crawler.py:78 | a numeral without a leading zero is the rendering of its own value, so the rendering is onto such numerals |
| Resolver.ParentUrlHasDigit | crawler.py:105-106 | defines when `get_story_id` does not raise: the chapter probe's story URL, when it is consulted, contains a digit |
| Resolver.ResolveStoryId | crawler.py:89-107 | a resolved id is a non-empty all-digit string; no probe is made exactly when the reference has no digit; the story probe is made first, and the chapter probe is made only when the story probe fails |
| Resolver.NoDigitIsNotFound | crawler.py:91-93 | a reference without a digit resolves to None with no probe made |
| Resolver.StoryIdWins | crawler.py:96-99 | if the story probe accepts the leftmost maximal digit run, that run is returned after one story probe, and the chapter probe is not made |
| Resolver.StoryIdIgnoresChapterOracle | crawler.py:97-99 | once the story probe succeeds, the outcome is the same whatever the chapter oracle answers |
| Resolver.NeitherStoryNorChapter | crawler.py:102-104 | if both probes fail, the result is None after a story probe and then a chapter probe |
| Resolver.ChapterIdGivesParentStory | crawler.py:102-107 | after a failed story probe and a successful chapter probe, the result is the leftmost maximal digit run of the returned story URL |
| Assembler.Eligible | crawler.py:62-68 | defines which parts are written out: not a draft, and no `deleted` key set to true (an absent key counts as not deleted) |
| Assembler.KeptIndices | crawler.py:59-68 | the positions of the kept parts are in range, strictly increasing, and contain every position whose element is kept |
| Assembler.KeptIndicesSnoc | crawler.py:59 | one more element adds its own position to the kept positions when it is kept, and nothing otherwise |
| Assembler.CategoryLabels | crawler.py:52 | there are no more labels than codes, and every label is a value of the categories table |
| Assembler.CategoryLabelsAreKnownCodes | crawler.py:52 | the labels are exactly the table's labels of the codes that are keys, one per such code, in input order, duplicates kept |
| Assembler.UnknownCodesDropped | crawler.py:52 | codes that are not keys of the table (such as 0) give an empty label list, with no error |
| Assembler.CategoryLabelsAppend | crawler.py:52 | the labels of two concatenated code lists are the two label lists concatenated |
| Assembler.CategoryLabelsExample | crawler.py:52 | with table {1, 3}, the codes [0, 3, 7, 1, 3] give the labels of 3, 1 and 3, in that order |
| Assembler.ChapterBlock | crawler.py:78-79 | defines one chapter block: "Chapter ", the index as `%d`, a space, the title, a space, the modify date, two newlines, the chapter text, four newlines |
| Assembler.Chapters | crawler.py:58-79 | defines the text the loop accumulates, recursively over the parts: the previous text, then the block of the last part if it is eligible, numbered by its full-list position; `DownloadStory`'s loop invariant is tied to it |
| Assembler.HeaderNumberIsIndex | crawler.py:78-79 | the first digit run of a chapter block sits right after "Chapter ", is the rendered index, and reads back as the index |
| Assembler.BlocksAtSnoc | crawler.py:78-79 | one more position adds that part's block at the end |
| Assembler.BlocksAtPrefix | crawler.py:59-79 | cutting the parts list after the last given position leaves the blocks unchanged |
| Assembler.ChaptersAreEligibleBlocks | crawler.py:58-79 | the accumulated text is the blocks of exactly the eligible parts, in list order, each numbered by its index in the full list |
| Assembler.NoEligiblePartsNoChapters | crawler.py:58-68 | with no eligible part, the accumulated text is "" |
| Assembler.SkippedPartsKeepNumbering | crawler.py:59-79 | parts [eligible, draft, eligible, deleted, eligible] give the kept positions [0, 2, 4] and exactly the three blocks numbered 0, 2 and 4 |
| Assembler.BookHeader | crawler.py:81-83 | defines the header: the title, two newlines, then the Create, Modified, Author and Category lines, then three newlines |
| Assembler.Book | crawler.py:81-83 | defines the book: the header over the filtered category labels, then the accumulated chapter text |
| Assembler.BookLayout | crawler.py:81-83 | the book is the header followed by the chapter text; the header opens with the title and ends with three newlines |
| Assembler.BookWithoutEligibleParts | crawler.py:81-83 | with no eligible part, assembly still gives a book, and it is the header alone |
| Assembler.DownloadStory | crawler.py:43-86 | the loop's result is the book of the specification; the chapter texts requested are the ids of the eligible parts, in list order; the file opened is the raw title plus ".txt" |
| Assembler.ChapterIdAssigned | crawler.py:59-70 | `chapter_id` is bound after the loop has gone through the parts exactly when one of them is eligible |
| Assembler.UnboundSkipMessage | crawler.py:62-70 | the loop as written raises, if at all, at a skipped part that only skipped parts precede |
| Assembler.AssignedAfterFirstEligible | crawler.py:70 | once an eligible first part has been processed, `chapter_id` stays bound |
| Assembler.UnboundSkipIffFirstPartSkipped | crawler.py:59-70 | the loop as written reads `chapter_id` while it is unbound exactly when the first part is skipped, and it does so at position 0 |
| Assembler.DraftOnlyStoryRaises | crawler.py:62-64 | for a story whose only part is a draft, the code as written raises at position 0, while the intended book is the header alone |
| FileNames.SanitizeFileName | crawler.py:37 | the translation keeps the length; it replaces each of the eleven table characters (full stop, both angle brackets, colon, double quote, slash, backslash, vertical bar, question mark, asterisk, caret) by `-` and leaves every other character as it is |
| FileNames.SanitizedIsLegal | crawler.py:37 | no illegal character survives the translation |
| FileNames.SanitizeIdempotent | crawler.py:37 | translating twice is the same as translating once |
| FileNames.TextFileName | crawler.py:85 | the opened name is the title unchanged, followed by ".txt" |
| FileNames.OpenedNameIsSanitizedIff | crawler.py:37-85 | the opened name equals the translated title plus ".txt" exactly when the title has no illegal character |

## Left out

- HTTP session, user agent and SOCKS proxy (crawler.py:14-20): not modelled. Every request is an oracle parameter.
- Request failures inside `download_story`, and `.json()` on a reply that is not JSON: not modelled. The `chapterText` oracle is total.
- The categories fetch and the conversion of its keys to `int` (crawler.py:40-41): not modelled. The table is a given `map<int, string>`.
- BeautifulSoup's HTML-to-text conversion (crawler.py:77): a foreign library. It is folded into the `chapterText` oracle.
- Writing the file (crawler.py:85-86) is I/O. Only the name of the opened file is modelled.
- All `print` logging, including the stale chapter id that the skip messages print after the first eligible part.
- Missing JSON fields (`KeyError`): records are assumed well formed. The fields that are read but never used (`description`, `rating`, `url`) are not in `StoryInfo`.
- `%s` applied to non-string JSON values: dates and titles are assumed to be strings, and part ids are modelled as strings. Python's rendering of the category list is the `renderList` oracle.
- The `__main__` driver (crawler.py:110-116).
- `Resolver.ResolveStoryId`: its precondition `ParentUrlHasDigit` excludes the case where the story URL returned by the chapter probe has no digit. There `re.search` returns None and `.group()` raises `AttributeError` (crawler.py:106); the model does not represent that exception.
- `Digits.IsDigit`: only ASCII `0`-`9`. In Python `\d` on `str` also matches other Unicode decimal digits; the model does not.
- `Assembler.DownloadStory`: models the intended loop. It skips a leading draft or deleted part without the `UnboundLocalError` of the code as written. The error is modelled separately; see Findings.
- There is no e-book output in this source, so none is modelled.

## Findings

| source | as written | input that shows it | evidently intended | confidence | as-written member | corrected member |
|---|---|---|---|---|---|---|
| crawler.py:62-70 | the skip messages for a draft or deleted part format `chapter_id`, which is first bound at line 70 by an eligible part | a story whose first part is a draft, e.g. `parts = [draft]`: `UnboundLocalError` at position 0, and no file is written | log the skipped part and go on; a story with no eligible part still gets a book with the header alone | high, not executed | Assembler.DraftOnlyStoryRaises | Assembler.DownloadStory |
