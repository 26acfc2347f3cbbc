/**
 * The document assembler, `download_story`: from a story-info record it builds
 * the text book: a header with the story's metadata and then one block per
 * eligible part, numbered by the part's position in the full `parts` list.
 * The HTTP fetch of a chapter and its HTML-to-text conversion are one oracle,
 * `chapterText(id)`; Python's rendering of the category list inside the
 * header is another, `renderList`.
 */
module Assembler {
  import opened Wrappers
  import opened Digits
  import FileNames

  /** One entry of the story's `parts`; `deleted` is None when the key is absent. */
  datatype Part = Part(id: string, title: string, modifyDate: string, draft: bool, deleted: Option<bool>)

  /** The fields of the story-info reply that `download_story` uses. */
  datatype StoryInfo = StoryInfo(
    title: string,
    createDate: string,
    modifyDate: string,
    author: string,
    categories: seq<int>,
    parts: seq<Part>)

  /** A part is written out unless it is a draft or carries `deleted` set to true. */
  predicate Eligible(p: Part) {
    !p.draft && !(p.deleted.Some? && p.deleted.value)
  }

  /**
   * The positions in s, in increasing order, of the elements that keep accepts:
   * the `i` of `enumerate` for the elements a filter lets through.
   */
  function KeptIndices<T>(s: seq<T>, keep: T -> bool): (idx: seq<nat>)
    ensures forall k :: 0 <= k < |idx| ==> idx[k] < |s| && keep(s[idx[k]])
    ensures forall k, l :: 0 <= k < l < |idx| ==> idx[k] < idx[l]
    ensures forall i :: 0 <= i < |s| && keep(s[i]) ==> i in idx
    decreases |s|
  {
    if s == [] then []
    else
      var n := |s| - 1;
      var pre := KeptIndices(s[..n], keep);
      assert forall k :: 0 <= k < |pre| ==> s[..n][pre[k]] == s[pre[k]];
      pre + (if keep(s[n]) then [n] else [])
  }

  /** Appending one element adds its position when it is kept, and nothing otherwise. */
  lemma KeptIndicesSnoc<T>(s: seq<T>, i: nat, keep: T -> bool)
    requires i < |s|
    ensures KeptIndices(s[..i + 1], keep)
         == KeptIndices(s[..i], keep) + (if keep(s[i]) then [i] else [])
  {
    assert s[..i + 1][..i] == s[..i];
  }

  // ----- Categories -----

  /** `[categories[c] for c in storyinfo['categories'] if c in categories]`. */
  function CategoryLabels(codes: seq<int>, lookup: map<int, string>): (labels: seq<string>)
    ensures |labels| <= |codes|
    ensures forall k :: 0 <= k < |labels| ==> labels[k] in lookup.Values
    decreases |codes|
  {
    if codes == [] then []
    else
      var n := |codes| - 1;
      CategoryLabels(codes[..n], lookup) + (if codes[n] in lookup then [lookup[codes[n]]] else [])
  }

  /**
   * The labels are those of the codes that are keys of the lookup, one per such
   * code, in the order of the codes: duplicates are kept, the other codes dropped.
   */
  lemma {:induction false} CategoryLabelsAreKnownCodes(codes: seq<int>, lookup: map<int, string>)
    ensures var idx := KeptIndices(codes, c => c in lookup);
      && |CategoryLabels(codes, lookup)| == |idx|
      && forall k :: 0 <= k < |idx| ==> CategoryLabels(codes, lookup)[k] == lookup[codes[idx[k]]]
    decreases |codes|
  {
    if codes != [] {
      var n := |codes| - 1;
      CategoryLabelsAreKnownCodes(codes[..n], lookup);
      KeptIndicesSnoc(codes, n, c => c in lookup);
      assert codes[..n + 1] == codes;
    }
  }

  /** Codes that are no key of the lookup (the code 0, for one) give no label and no error. */
  lemma {:induction false} UnknownCodesDropped(codes: seq<int>, lookup: map<int, string>)
    requires forall k :: 0 <= k < |codes| ==> codes[k] !in lookup
    ensures CategoryLabels(codes, lookup) == []
    decreases |codes|
  {
    if codes != [] {
      UnknownCodesDropped(codes[..|codes| - 1], lookup);
    }
  }

  /** Appending codes appends their labels: the filter works code by code. */
  lemma {:induction false} CategoryLabelsAppend(codes: seq<int>, more: seq<int>, lookup: map<int, string>)
    ensures CategoryLabels(codes + more, lookup) == CategoryLabels(codes, lookup) + CategoryLabels(more, lookup)
    decreases |more|
  {
    if more != [] {
      var n := |more| - 1;
      var last := if more[n] in lookup then [lookup[more[n]]] else [];
      CategoryLabelsAppend(codes, more[..n], lookup);
      assert (codes + more)[..|codes + more| - 1] == codes + more[..n];
      assert (codes + more)[|codes + more| - 1] == more[n];
      calc {
        CategoryLabels(codes + more, lookup);
        CategoryLabels(codes + more[..n], lookup) + last;
        (CategoryLabels(codes, lookup) + CategoryLabels(more[..n], lookup)) + last;
        CategoryLabels(codes, lookup) + (CategoryLabels(more[..n], lookup) + last);
        CategoryLabels(codes, lookup) + CategoryLabels(more, lookup);
      }
    } else {
      assert codes + more == codes;
    }
  }

  /** Code 0 and an unknown code vanish, a repeated known code gives its label twice. */
  lemma CategoryLabelsExample(lookup: map<int, string>)
    requires lookup == map[1 := "Teen Fiction", 3 := "Fantasy"]
    ensures CategoryLabels([0, 3, 7, 1, 3], lookup) == ["Fantasy", "Teen Fiction", "Fantasy"]
  {
    assert [0][..0] == [];
    assert [0, 3][..1] == [0];
    assert [0, 3, 7][..2] == [0, 3];
    assert [0, 3, 7, 1][..3] == [0, 3, 7];
    assert [0, 3, 7, 1, 3][..4] == [0, 3, 7, 1];
    assert CategoryLabels([0], lookup) == [];
    assert CategoryLabels([0, 3], lookup) == ["Fantasy"];
    assert CategoryLabels([0, 3, 7], lookup) == ["Fantasy"];
    assert CategoryLabels([0, 3, 7, 1], lookup) == ["Fantasy", "Teen Fiction"];
  }

  // ----- Chapters -----

  /** `"Chapter %d %s %s\n\n%s\n\n\n\n" % (chapter_index, chapter_title, chapter_modifyDate, pure_text)`. */
  function ChapterBlock(index: nat, p: Part, text: string): string {
    "Chapter " + DecimalString(index) + " " + p.title + " " + p.modifyDate + "\n\n" + text + "\n\n\n\n"
  }

  /** The number in a block's header is the leftmost digit run of the block, and it reads back as the index. */
  lemma HeaderNumberIsIndex(index: nat, p: Part, text: string)
    ensures var block := ChapterBlock(index, p, text);
      && SearchDigits(block) == Some(Match(8, 8 + |DecimalString(index)|))
      && FirstDigitRun(block) == Some(DecimalString(index))
      && ParseDecimal(FirstDigitRun(block).value) == index
  {
    var num := DecimalString(index);
    var rest := " " + p.title + " " + p.modifyDate + "\n\n" + text + "\n\n\n\n";
    var block := ChapterBlock(index, p, text);
    assert block == "Chapter " + num + rest;
    assert forall k :: 0 <= k < 8 ==> block[k] == "Chapter "[k];
    assert forall k :: 8 <= k < 8 + |num| ==> block[k] == num[k - 8];
    assert block[8 + |num|] == ' ';
    assert block[8..8 + |num|] == num;
    LeftmostMaximalRunIsMatch(block, 8, 8 + |num|);
    ParseDecimalString(index);
  }

  /**
   * The text the loop accumulates in `txt_content`: for each part, in order, the
   * block of an eligible part, numbered by its position in the whole list.
   */
  function Chapters(parts: seq<Part>, chapterText: string -> string): string
    decreases |parts|
  {
    if parts == [] then ""
    else
      var n := |parts| - 1;
      Chapters(parts[..n], chapterText)
        + (if Eligible(parts[n]) then ChapterBlock(n, parts[n], chapterText(parts[n].id)) else "")
  }

  /** The blocks of the parts at the given positions, numbered by those positions. */
  function BlocksAt(parts: seq<Part>, idx: seq<nat>, chapterText: string -> string): string
    requires forall k :: 0 <= k < |idx| ==> idx[k] < |parts|
    decreases |idx|
  {
    if idx == [] then ""
    else
      var i := idx[|idx| - 1];
      BlocksAt(parts, idx[..|idx| - 1], chapterText) + ChapterBlock(i, parts[i], chapterText(parts[i].id))
  }

  /** The ids of the parts at the given positions. */
  function IdsAt(parts: seq<Part>, idx: seq<nat>): (ids: seq<string>)
    requires forall k :: 0 <= k < |idx| ==> idx[k] < |parts|
    ensures |ids| == |idx|
    ensures forall k :: 0 <= k < |idx| ==> ids[k] == parts[idx[k]].id
  {
    seq(|idx|, k requires 0 <= k < |idx| => parts[idx[k]].id)
  }

  /** Blocks only look at the positions they are given, so a longer list with the same prefix gives the same text. */
  lemma {:induction false} BlocksAtPrefix(parts: seq<Part>, m: nat, idx: seq<nat>, chapterText: string -> string)
    requires m <= |parts|
    requires forall k :: 0 <= k < |idx| ==> idx[k] < m
    ensures BlocksAt(parts, idx, chapterText) == BlocksAt(parts[..m], idx, chapterText)
    decreases |idx|
  {
    if idx != [] {
      BlocksAtPrefix(parts, m, idx[..|idx| - 1], chapterText);
    }
  }

  /** One more position adds its block at the end. */
  lemma BlocksAtSnoc(parts: seq<Part>, idx: seq<nat>, i: nat, chapterText: string -> string)
    requires forall k :: 0 <= k < |idx| ==> idx[k] < |parts|
    requires i < |parts|
    ensures BlocksAt(parts, idx + [i], chapterText)
         == BlocksAt(parts, idx, chapterText) + ChapterBlock(i, parts[i], chapterText(parts[i].id))
  {
  }

  /**
   * The accumulated text is the blocks of exactly the eligible parts, in list
   * order, each numbered by its index in the full list and not among the
   * eligible ones.
   */
  lemma {:induction false} ChaptersAreEligibleBlocks(parts: seq<Part>, chapterText: string -> string)
    ensures Chapters(parts, chapterText) == BlocksAt(parts, KeptIndices(parts, Eligible), chapterText)
    decreases |parts|
  {
    if parts != [] {
      var n := |parts| - 1;
      var init := parts[..n];
      var pre := KeptIndices(init, Eligible);
      var tail := if Eligible(parts[n]) then ChapterBlock(n, parts[n], chapterText(parts[n].id)) else "";
      assert KeptIndices(parts, Eligible) == pre + (if Eligible(parts[n]) then [n] else []);
      assert Chapters(parts, chapterText) == Chapters(init, chapterText) + tail;
      ChaptersAreEligibleBlocks(init, chapterText);
      BlocksAtPrefix(parts, n, pre, chapterText);
      if Eligible(parts[n]) {
        BlocksAtSnoc(parts, pre, n, chapterText);
      } else {
        assert pre + [] == pre;
      }
    }
  }

  /** With no eligible part the chapter text is empty. */
  lemma {:induction false} NoEligiblePartsNoChapters(parts: seq<Part>, chapterText: string -> string)
    requires forall k :: 0 <= k < |parts| ==> !Eligible(parts[k])
    ensures Chapters(parts, chapterText) == ""
    decreases |parts|
  {
    if parts != [] {
      NoEligiblePartsNoChapters(parts[..|parts| - 1], chapterText);
    }
  }

  /** The pattern [eligible, draft, eligible, deleted, eligible] gives the blocks numbered 0, 2 and 4. */
  lemma SkippedPartsKeepNumbering(a: Part, b: Part, c: Part, d: Part, e: Part, chapterText: string -> string)
    requires Eligible(a) && b.draft && Eligible(c) && d.deleted == Some(true) && Eligible(e)
    ensures KeptIndices([a, b, c, d, e], Eligible) == [0, 2, 4]
    ensures Chapters([a, b, c, d, e], chapterText)
         == ChapterBlock(0, a, chapterText(a.id)) + ChapterBlock(2, c, chapterText(c.id))
            + ChapterBlock(4, e, chapterText(e.id))
  {
    assert [a][..0] == [];
    assert [a, b][..1] == [a];
    assert [a, b, c][..2] == [a, b];
    assert [a, b, c, d][..3] == [a, b, c];
    assert [a, b, c, d, e][..4] == [a, b, c, d];
    assert KeptIndices([a], Eligible) == [0];
    assert KeptIndices([a, b], Eligible) == [0];
    assert KeptIndices([a, b, c], Eligible) == [0, 2];
    assert KeptIndices([a, b, c, d], Eligible) == [0, 2];
    var block0, block2 := ChapterBlock(0, a, chapterText(a.id)), ChapterBlock(2, c, chapterText(c.id));
    assert Chapters([a], chapterText) == "" + block0;
    assert Chapters([a, b], chapterText) == block0;
    assert Chapters([a, b, c], chapterText) == block0 + block2;
    assert Chapters([a, b, c, d], chapterText) == block0 + block2;
  }

  // ----- The book -----

  /** `"%s\n\nCreate: %s\nModified: %s\nAuthor: %s\nCategory: %s\n\n\n"` filled with the story's metadata. */
  function BookHeader(info: StoryInfo, labels: seq<string>, renderList: seq<string> -> string): string {
    info.title + "\n\nCreate: " + info.createDate + "\nModified: " + info.modifyDate
      + "\nAuthor: " + info.author + "\nCategory: " + renderList(labels) + "\n\n\n"
  }

  /** The book `download_story` writes: the header, then the accumulated chapter text. */
  function Book(info: StoryInfo, lookup: map<int, string>, chapterText: string -> string,
                renderList: seq<string> -> string): string
  {
    BookHeader(info, CategoryLabels(info.categories, lookup), renderList) + Chapters(info.parts, chapterText)
  }

  /**
   * The book opens with the title, the three dates-and-names lines and the
   * category line, followed by three newlines; what follows is the chapter text.
   */
  lemma BookLayout(info: StoryInfo, lookup: map<int, string>, chapterText: string -> string,
                   renderList: seq<string> -> string)
    ensures var header := BookHeader(info, CategoryLabels(info.categories, lookup), renderList);
      var book := Book(info, lookup, chapterText, renderList);
      && book[..|header|] == header
      && book[|header|..] == Chapters(info.parts, chapterText)
      && header[..|info.title|] == info.title
      && header[|header| - 3..] == "\n\n\n"
  {
  }

  /** With no eligible part assembly still succeeds, and the book is the header alone. */
  lemma BookWithoutEligibleParts(info: StoryInfo, lookup: map<int, string>, chapterText: string -> string,
                                 renderList: seq<string> -> string)
    requires forall k :: 0 <= k < |info.parts| ==> !Eligible(info.parts[k])
    ensures Book(info, lookup, chapterText, renderList)
         == BookHeader(info, CategoryLabels(info.categories, lookup), renderList)
  {
    NoEligiblePartsNoChapters(info.parts, chapterText);
  }

  /**
   * `download_story` on an already fetched story-info record: the category
   * labels, the loop over `enumerate(parts)` that skips drafts and deleted
   * parts and appends a block for each other part, then the book and the name
   * of the file it is written to. `fetched` lists the chapter ids whose text
   * is requested, in the order of the requests.
   */
  method DownloadStory(info: StoryInfo, lookup: map<int, string>, chapterText: string -> string,
                       renderList: seq<string> -> string)
    returns (book: string, fileName: string, fetched: seq<string>)
    ensures book == Book(info, lookup, chapterText, renderList)
    ensures fetched == IdsAt(info.parts, KeptIndices(info.parts, Eligible))
    ensures fileName == FileNames.TextFileName(info.title)
  {
    var storyCategories := CategoryLabels(info.categories, lookup);
    var parts := info.parts;
    var txtContent := "";
    fetched := [];
    for chapterIndex := 0 to |parts|
      invariant txtContent == Chapters(parts[..chapterIndex], chapterText)
      invariant fetched == IdsAt(parts, KeptIndices(parts[..chapterIndex], Eligible))
    {
      KeptIndicesSnoc(parts, chapterIndex, Eligible);
      assert parts[..chapterIndex + 1][..chapterIndex] == parts[..chapterIndex];
      var part := parts[chapterIndex];
      if part.draft {
        continue;
      }
      if part.deleted.Some? && part.deleted.value {
        continue;
      }
      var chapterId := part.id;
      var pureText := chapterText(chapterId);
      fetched := fetched + [chapterId];
      txtContent := txtContent + ChapterBlock(chapterIndex, part, pureText);
    }
    assert parts[..|parts|] == parts;
    book := BookHeader(info, storyCategories, renderList) + txtContent;
    fileName := FileNames.TextFileName(info.title);
  }

  // ----- The skip messages as written -----

  /**
   * Whether `chapter_id` has been assigned after the loop has gone through
   * parts: it is assigned only on the path of an eligible part.
   */
  function ChapterIdAssigned(parts: seq<Part>): (isBound: bool)
    ensures isBound <==> exists k :: 0 <= k < |parts| && Eligible(parts[k])
    decreases |parts|
  {
    if parts == [] then false
    else
      var n := |parts| - 1;
      assert forall k :: 0 <= k < n ==> parts[..n][k] == parts[k];
      ChapterIdAssigned(parts[..n]) || Eligible(parts[n])
  }

  /**
   * The position at which the loop as written raises `UnboundLocalError`: the
   * first skipped part whose skip message reads `chapter_id` before any
   * assignment to it. None when the loop runs to its end.
   */
  function UnboundSkipMessage(parts: seq<Part>): (raisedAt: Option<nat>)
    ensures raisedAt.Some? ==>
      && raisedAt.value < |parts|
      && !Eligible(parts[raisedAt.value])
      && forall k :: 0 <= k < raisedAt.value ==> !Eligible(parts[k])
    decreases |parts|
  {
    if parts == [] then None
    else
      var n := |parts| - 1;
      match UnboundSkipMessage(parts[..n])
      case Some(k) => Some(k)
      case None => if !Eligible(parts[n]) && !ChapterIdAssigned(parts[..n]) then Some(n) else None
  }

  /** Once the first part is written out, `chapter_id` stays assigned. */
  lemma {:induction false} AssignedAfterFirstEligible(parts: seq<Part>)
    requires parts != [] && Eligible(parts[0])
    ensures ChapterIdAssigned(parts)
    decreases |parts|
  {
    if |parts| > 1 {
      AssignedAfterFirstEligible(parts[..|parts| - 1]);
    }
  }

  /** The loop as written raises exactly when the first part is skipped, and it does so at that part. */
  lemma {:induction false} UnboundSkipIffFirstPartSkipped(parts: seq<Part>)
    ensures UnboundSkipMessage(parts).Some? <==> parts != [] && !Eligible(parts[0])
    ensures UnboundSkipMessage(parts).Some? ==> UnboundSkipMessage(parts).value == 0
    decreases |parts|
  {
    if parts != [] {
      var n := |parts| - 1;
      UnboundSkipIffFirstPartSkipped(parts[..n]);
      if n == 0 {
        assert parts[..n] == [];
      } else {
        assert parts[..n][0] == parts[0];
        if Eligible(parts[0]) {
          AssignedAfterFirstEligible(parts[..n]);
        }
      }
    }
  }

  /**
   * A story whose only part is a draft: the loop as written raises at that part,
   * although the intended behaviour is a book that holds the header alone.
   */
  lemma DraftOnlyStoryRaises(info: StoryInfo, lookup: map<int, string>, chapterText: string -> string,
                             renderList: seq<string> -> string)
    requires |info.parts| == 1 && info.parts[0].draft
    ensures UnboundSkipMessage(info.parts) == Some(0)
    ensures Book(info, lookup, chapterText, renderList)
         == BookHeader(info, CategoryLabels(info.categories, lookup), renderList)
  {
    UnboundSkipIffFirstPartSkipped(info.parts);
    BookWithoutEligibleParts(info, lookup, chapterText, renderList);
  }
}
