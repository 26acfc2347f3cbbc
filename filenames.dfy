/**
 * File names. `ILLEAGAL_FILENAME_CHARACTERS` is a translation table that maps
 * each of `. < > : " / \ | ? * ^` to `-`; it is defined but never applied, and
 * `download_story` opens the raw title followed by ".txt". Both are modelled,
 * so that the difference between them can be stated.
 */
module FileNames {

  /** The characters the translation table replaces. */
  predicate IsIllegal(c: char) {
    c in {'.', '<', '>', ':', '"', '/', '\\', '|', '?', '*', '^'}
  }

  /** The substitute the table puts in their place. */
  const Substitute: char := '-'

  /** One character through the table. */
  function TranslateChar(c: char): char {
    if IsIllegal(c) then Substitute else c
  }

  /** `s.translate(ILLEAGAL_FILENAME_CHARACTERS)`: position by position, illegal characters become the substitute. */
  function SanitizeFileName(s: string): (r: string)
    ensures |r| == |s|
    ensures forall k :: 0 <= k < |s| ==> r[k] == (if IsIllegal(s[k]) then Substitute else s[k])
    decreases |s|
  {
    if s == [] then [] else [TranslateChar(s[0])] + SanitizeFileName(s[1..])
  }

  /** No illegal character survives the translation. */
  lemma SanitizedIsLegal(s: string)
    ensures forall k :: 0 <= k < |s| ==> !IsIllegal(SanitizeFileName(s)[k])
  {
  }

  /** Translating twice is translating once. */
  lemma SanitizeIdempotent(s: string)
    ensures SanitizeFileName(SanitizeFileName(s)) == SanitizeFileName(s)
  {
  }

  /** The name `download_story` actually opens: the title as it is, then ".txt". */
  function TextFileName(title: string): (name: string)
    ensures |name| == |title| + 4
    ensures name[..|title|] == title && name[|title|..] == ".txt"
  {
    title + ".txt"
  }

  /** The opened name is the translated one exactly when the title has no illegal character. */
  lemma OpenedNameIsSanitizedIff(title: string)
    ensures TextFileName(title) == SanitizeFileName(title) + ".txt"
        <==> forall k :: 0 <= k < |title| ==> !IsIllegal(title[k])
  {
  }
}
