# EADXMLNLP text pipeline: a verified model

`eadxmlnlp.py` collects Encoded Archival Description (EAD) finding aids and
works on them in four steps, which are modelled here:

1. It checks each file. A file that does not decode, or whose text contains
   neither `<ead ` nor `eadheader`, is skipped. Every other file becomes
   exactly one text unit, numbered by the counter `textFilePos`, which then
   moves on by one. The counter is threaded through every file of the run.
2. For each target tag (`scopecontent`, `processinfo`, `arrangement`) it
   takes the first `<p>` of every occurrence and normalises that text. It
   strips the ends, turns newline and tab runs into one space, collapses
   space runs and case-folds. The normalised texts of one tag are joined by
   single spaces. The tag chunks are concatenated into the unit text.
3. It keeps a per-tag triple `[occurrences, characters, words]`
   (`averageTagLength`) and a list of archival years (`dateList`). At the end
   it reports `round(total / max(count, 1))` per tag.
4. On the lemmatised corpus it finds collocation candidates: contiguous
   windows of 2, 3 and 4 tokens that occur at least twice and contain no
   rejected word. It reports at most 100 per window size.

Modules:

- `TextNormalize` (`text_normalize.dfy`): Python's `strip`, the two
  `re.sub` passes, `casefold`, `split(" ")` and `" ".join`. It proves what
  normalised text looks like, that normalising is idempotent and that no
  visible character is lost.
- `Extraction` (`extraction.dfy`): the files, the abstract parsed
  document, acceptance, the unit text and the tag-length triples. It also
  has the fold of all of these over a run of files.
- `Scraper` (`scraper.dfy`): a class holding the process-wide state:
  - `pos` is `textFilePos`;
  - `units` holds the text files written so far;
  - `stats` is `averageTagLength`;
  - `dates` is `dateList`.

  `ScrapeKeyElements` updates this state in place with the nested loops of
  the source. `ScrapeAll` is the loop of the main program.
- `AverageReport` (`average_report.dfy`): round-half-to-even on integers and
  the report loop of `processAverageTagLength`.
- `Collocations` (`collocations.dfy`): window frequencies, the rejection
  predicate, the two filters of `applyFilter`, a finder object whose table
  the filters update in place, and the `getCollocations` loop.
- `Wrappers` (`wrappers.dfy`): `Option`.

Behaviour of the code worth knowing:

- **Chunks are not separated.** Line 114 concatenates the tag chunks with
  no separator, so the last word of one tag fuses with the first word of the
  next. `Extraction.UnitTextFusesTags` proves this: "Alpha" under
  `scopecontent` and "Beta" under `processinfo` give the unit `alphabeta`.
- **An empty paragraph counts one word.** Line 113 adds
  `len(processedWord.split(" "))` words, which is 1 for an empty paragraph,
  not 0. `Extraction.TagStatsTotals` and `Extraction.TagStatsGrows` state
  this.
- **Normalisation strips first.** It strips the ends first and then
  replaces the runs, in the order of lines 107-109.
- **The ignored words are fixed.** They are a constant, as in line 53,
  rather than a configuration.

## Model

| member | source | states |
|---|---|---|
| TextNormalize.StripLeftShape | eadxmlnlp.py:108 | `lstrip` removes exactly a whitespace prefix: the result is a suffix of the input, everything removed is whitespace, and the result is empty or starts with a non-space |
| TextNormalize.StripRightShape | eadxmlnlp.py:108 | `rstrip` removes exactly a whitespace suffix, and the result is empty or ends with a non-space |
| TextNormalize.StripShape | eadxmlnlp.py:108 | `strip()` yields a middle slice of the input whose ends are not whitespace, and everything cut off on both sides is whitespace |
| TextNormalize.DropRun | eadxmlnlp.py:107-108 | consuming a run of one character never lengthens the text, and shortens it when the run is non-empty |
| TextNormalize.DropRunShape | eadxmlnlp.py:107-108 | what a run match consumes is a prefix made only of that character, and all of that prefix |
| TextNormalize.SubNewlineTabRunsClean | eadxmlnlp.py:108 | after `re.sub("\n+\|\t+", " ", ...)` no newline or tab is left |
| TextNormalize.SubNewlineTabRunsLast | eadxmlnlp.py:108 | the substitution keeps a last character that is neither newline nor tab, so stripped text stays stripped on the right |
| TextNormalize.SubNewlineTabRunsNoop | eadxmlnlp.py:108 | text without newline or tab is left unchanged |
| TextNormalize.SubNewlineTabRunsPrefix | eadxmlnlp.py:108 | a prefix without newline or tab passes through the substitution untouched |
| TextNormalize.SubNewlineTabRunsRun | eadxmlnlp.py:108 | a whole run of newlines, or of tabs, in front of text becomes exactly one space, so the words around it stay apart |
| TextNormalize.SubLineBreakExample | eadxmlnlp.py:108 | `"a\nb"` becomes `"a b"` |
| TextNormalize.CollapseSpacesNoDouble | eadxmlnlp.py:107 | after `re.sub(" +", " ", ...)` no two spaces are adjacent |
| TextNormalize.CollapseSpacesChars | eadxmlnlp.py:107 | collapsing introduces no new character |
| TextNormalize.CollapseSpacesLast | eadxmlnlp.py:107 | collapsing keeps a last character that is not a space |
| TextNormalize.CollapseSpacesNoop | eadxmlnlp.py:107 | text without a double space is left unchanged |
| TextNormalize.CollapseSpacesPrefix | eadxmlnlp.py:107 | a space-free prefix passes through collapsing untouched |
| TextNormalize.CollapseSpacesRun | eadxmlnlp.py:107 | a space run in front of text becomes one space |
| TextNormalize.CaseFoldNormal | eadxmlnlp.py:107-109 | case folding text that is stripped, newline-free, tab-free and without double spaces gives normal text |
| TextNormalize.CaseFoldOfLower | eadxmlnlp.py:109 | case folding leaves text without upper-case letters unchanged |
| TextNormalize.StripOfTrimmed | eadxmlnlp.py:108 | `strip` leaves text with non-space ends unchanged |
| TextNormalize.NormalizeIsNormal | eadxmlnlp.py:107-109 | a normalised paragraph has no newline, tab, upper-case letter or double space, and no whitespace at either end |
| TextNormalize.NormalizeFixpoint | eadxmlnlp.py:107-109 | normalisation leaves a text unchanged if and only if the text is already normal |
| TextNormalize.NormalizeIdempotent | eadxmlnlp.py:107-109 | normalising twice equals normalising once |
| TextNormalize.NormalizeExample | eadxmlnlp.py:107-109 | `"Hello   World\n\n"` normalises to `"hello world"` |
| TextNormalize.VisibleAppend | eadxmlnlp.py:107-109 | the visible (non-whitespace) characters of a concatenation are those of its parts |
| TextNormalize.VisibleAllSpace | eadxmlnlp.py:108 | all-whitespace text has no visible characters |
| TextNormalize.VisibleStrip | eadxmlnlp.py:108 | `strip` keeps every visible character |
| TextNormalize.VisibleDropRun | eadxmlnlp.py:107-108 | consuming a whitespace run keeps every visible character |
| TextNormalize.VisibleSubNewlineTabRuns | eadxmlnlp.py:108 | the newline/tab substitution keeps every visible character |
| TextNormalize.VisibleCollapseSpaces | eadxmlnlp.py:107 | space collapsing keeps every visible character |
| TextNormalize.CaseFoldAppend | eadxmlnlp.py:109 | case folding distributes over concatenation |
| TextNormalize.VisibleCaseFold | eadxmlnlp.py:109 | case folding commutes with taking the visible characters |
| TextNormalize.NormalizeKeepsText | eadxmlnlp.py:107-109 | normalisation loses no visible character: they are the input's, case-folded, in order |
| TextNormalize.Split | eadxmlnlp.py:113 | `split(" ")` always yields at least one part |
| TextNormalize.JoinSplit | eadxmlnlp.py:113 | joining the parts of `split(" ")` with the separator gives back the text |
| TextNormalize.SplitLength | eadxmlnlp.py:113 | `split(" ")` yields one part more than there are separators |
| TextNormalize.CountAppend | eadxmlnlp.py:113 | separator counts add up over concatenation |
| TextNormalize.JoinSnoc | eadxmlnlp.py:110-114 | joining one more part adds the separator and the part, except for the first part |
| Extraction.StrippedWordIsJoin | eadxmlnlp.py:103-110 | the accumulated `strippedWord` is the qualifying paragraphs joined by spaces plus one trailing space, or empty |
| Extraction.ChunkIsJoin | eadxmlnlp.py:103-114 | a tag's chunk (`strippedWord[:-1]`) is its normalised paragraphs, in document order, joined by single spaces; no paragraphs give `""` |
| Extraction.ParagraphsSkipNone | eadxmlnlp.py:105 | occurrences without `<p>` contribute nothing: there are at most as many paragraphs as occurrences, and none when no occurrence has one |
| Extraction.StrippedWordClean | eadxmlnlp.py:104-110 | a tag's accumulated text has no newline, tab or upper-case letter |
| Extraction.UnitTextClean | eadxmlnlp.py:100-114 | a unit has no newline, tab or upper-case letter |
| Extraction.UnitTextAppend | eadxmlnlp.py:100-114 | the unit of a split tag list is the two units concatenated: chunks of different tags are not separated |
| Extraction.NormalizeWord | eadxmlnlp.py:107-109 | a paragraph with no whitespace is only case-folded |
| Extraction.ChunkOfWord | eadxmlnlp.py:103-114 | one whitespace-free paragraph gives a chunk equal to that paragraph, case-folded |
| Extraction.FusionChunks | eadxmlnlp.py:103-114 | the single paragraphs "Alpha" and "Beta" give the chunks "alpha" and "beta" |
| Extraction.UnitTextFusesTags | eadxmlnlp.py:100-114 | "Alpha" under `scopecontent` and "Beta" under `processinfo` give the unit `alphabeta` |
| Extraction.TagStatsTotals | eadxmlnlp.py:111-113 | a tag's triple grows by the number of its paragraphs, their total length, and their total space count plus one word per paragraph |
| Extraction.JoinLength | eadxmlnlp.py:110-114 | a space-join of paragraphs is as long as the paragraphs plus the separators, and has that many more spaces |
| Extraction.TagStatsMatchChunk | eadxmlnlp.py:104-114 | the count grows by the number of paragraphs; with none the triple is unchanged; otherwise the characters grow by the chunk length minus the separators and the words by the number of space-separated tokens of the chunk |
| Extraction.TagStatsGrows | eadxmlnlp.py:111-113 | from the `[0, 0, 0]` start of line 57 on, a tag's visits never decrease a component and keep words >= count and count 0 implying zero totals |
| Extraction.DocStats | eadxmlnlp.py:101-113 | one document keeps exactly the tag keys of `averageTagLength` |
| Extraction.GrownTotals | eadxmlnlp.py:111-113 | growing a triple k times adds k times each paragraph total |
| Extraction.DocStatsTotals | eadxmlnlp.py:101-113 | after one document a tag's triple has grown by its paragraph totals once per listing of the tag in `elements`; other tags are untouched |
| Extraction.DocStatsGrows | eadxmlnlp.py:101-113 | one document keeps every triple consistent and never shrinks one |
| Extraction.YearOf | eadxmlnlp.py:95-99 | an accepted document appends at most one year, and none exactly when it has no usable date |
| Extraction.CorpusStats | eadxmlnlp.py:178-194 | a run over many files keeps the tag keys |
| Extraction.AcceptedUnitsBound | eadxmlnlp.py:178-194 | there are no more years than units and no more units than files; a run where every file is skipped writes no unit |
| Extraction.AcceptedUnitsAppend | eadxmlnlp.py:178-194 | the units of two consecutive batches of files are the units of each, in order |
| Extraction.CorpusStatsGrows | eadxmlnlp.py:178-194 | a whole run keeps every triple consistent and never shrinks one |
| Scraper.Scraper.constructor | eadxmlnlp.py:56-59 | the program starts with counter 0, no units, `[0, 0, 0]` for every tag and no dates |
| Scraper.Scraper.ScrapeKeyElements | eadxmlnlp.py:79-119 | an undecodable or non-EAD file changes nothing and returns the counter. Otherwise it writes exactly one unit under the incoming counter, even an empty one. Every tag's triple takes in its paragraphs, the year (if any) is appended, and counter + 1 is returned. The state stays valid |
| Scraper.Scraper.ScrapeDocument | eadxmlnlp.py:100-114 | the loop over the tags builds the unit text in tag order and updates each listed tag's triple in place |
| Scraper.Scraper.ScrapeElement | eadxmlnlp.py:102-113 | the loop over one tag's occurrences builds `strippedWord` and updates only that tag's triple |
| Scraper.Scraper.ScrapeAll | eadxmlnlp.py:178-194 | threading the counter through all files numbers the accepted files consecutively from the incoming counter, in order, and keeps earlier units. The triples and years accumulate over the accepted files |
| AverageReport.RoundHalfEven | eadxmlnlp.py:155 | `round(a / m)` is within one half of `a / m`, and an exact tie goes to the even neighbour |
| AverageReport.RoundUnique | eadxmlnlp.py:155 | off a tie, any integer within one half of `a / m` is the rounded value |
| AverageReport.RoundTie | eadxmlnlp.py:155 | at an exact tie `q + 1/2` the result is whichever of `q` and `q + 1` is even |
| AverageReport.RoundExamples | eadxmlnlp.py:155 | `round(2.5) == 2`, `round(3.5) == 4`, `round(0.5) == 0` and `round(7/3) == 2` |
| AverageReport.Average | eadxmlnlp.py:155-158 | with count 0 the total itself is reported; otherwise the result is within one half of `total / count` |
| AverageReport.AverageExact | eadxmlnlp.py:155-158 | exact quotients are reported unchanged |
| AverageReport.ReportRowConsistent | eadxmlnlp.py:155-158 | from a consistent triple: a tag never seen reports 0 characters and 0 words; a tag seen at least once reports at least one word |
| AverageReport.ProcessAverageTagLength | eadxmlnlp.py:153-159 | given the keys of the table in order, one row per key, in that order, carrying the key's two averages; every key gets exactly one row |
| Collocations.FrequencyPositive | eadxmlnlp.py:148 | a window's count is positive if and only if it occurs as a contiguous window of the text |
| Collocations.FrequencyPrepend | eadxmlnlp.py:148 | text put in front never lowers a window's count |
| Collocations.FrequencyAppend | eadxmlnlp.py:148 | counts in two stretches of text add up in their concatenation, at least |
| Collocations.NgramFdKeys | eadxmlnlp.py:148 | the table built from the text holds exactly the n-token sequences that occur in it |
| Collocations.RejectedExamples | eadxmlnlp.py:140 | with the stop words of lines 53-54, "of" (short), "york" (ignored word) and "1960s" (not alphabetic) are rejected, "archive" is kept, and every ignored word is rejected |
| Collocations.CandidatesIff | eadxmlnlp.py:139-148 | a window survives `applyFilter` if and only if it has n tokens, occurs at least twice and has no rejected word; its entry is its count |
| Collocations.FiltersCommute | eadxmlnlp.py:139-141 | the frequency filter and the word filter can be applied in either order |
| Collocations.RepeatedCandidate | eadxmlnlp.py:139-148 | every window of a text written out twice whose words are all kept is a candidate |
| Collocations.RepeatedSentence | eadxmlnlp.py:139-148 | in "the quick brown fox" written twice, "quick brown" and "brown fox" are candidates and "the quick" is not |
| Collocations.EnumerationSize | eadxmlnlp.py:150 | a ranking listing every candidate once is as long as the candidate set |
| Collocations.LemmatizedWindow | eadxmlnlp.py:132 | every window of the lemmatised corpus is the lemmatisation of the corpus window at the same place |
| Collocations.LemmatizedFrequency | eadxmlnlp.py:132 | lemmatising never loses an occurrence: a lemmatised window occurs in the lemmatised corpus at least as often as the window occurs in the corpus |
| Collocations.Finder.FromWords | eadxmlnlp.py:148 | the finder's table counts every contiguous window of n tokens |
| Collocations.Finder.ApplyFreqFilter | eadxmlnlp.py:139 | the table loses, in place, exactly the windows seen fewer than the threshold |
| Collocations.Finder.ApplyWordFilter | eadxmlnlp.py:140-141 | the table loses, in place, exactly the windows holding a rejected word |
| Collocations.Finder.NBest | eadxmlnlp.py:150 | `nbest(score, k)` returns min(k, table size) distinct windows of the table, in ranking order |
| Collocations.ApplyFilter | eadxmlnlp.py:138-141 | after `applyFilter` the table holds the windows seen at least twice with no rejected word |
| Collocations.GetCollocations | eadxmlnlp.py:122-150 | for each of n = 2, 3, 4 the report holds min(100, number of candidates) distinct candidates of n tokens |

## Left out

- Downloading from the Library of Congress (`bulkDownloadXMLLOC`,
  lines 61-76): HTTP requests and HTML scraping.
- Git clone and pull, `os.walk`, `os.listdir`, `mkdir` and the file-name
  test (lines 171-194): file-system and network I/O. Only the counter
  threading over the resulting file list is modelled, in
  `Scraper.Scraper.ScrapeAll`.
- Reading the files, writing the text units, `dates.txt`, printing and
  logging (lines 84-85, 115-118, 147, 150, 159, 196, 200-201). A unit is an
  entry of the `units` map. The reports are return values.
- BeautifulSoup parsing, `find_all`, the `.p` lookup and `getText`
  (lines 94, 102-106): a document is already parsed. For each tag it holds,
  in document order, the text of each occurrence's first `<p>` or `None`.
- `dateutil.parser.parse` (lines 96-97): a document carries its year as
  `Option<int>`, and `dateList` holds integers rather than their decimal
  strings.
- The WordNet lemmatiser and `PlaintextCorpusReader` tokenisation
  (lines 130-132): the corpus words and the lemmatiser are parameters.
- Collocations.Finder.NBest: the likelihood-ratio scores and the order of
  `nbest` (lines 125-127, 150) are floating-point statistics inside NLTK.
  The ranking is a parameter, required to list each candidate exactly once.
- Collocations.GetCollocations: it requires, for each window size, such a
  ranking of that size's candidates. It returns the windows without their
  scores.
- Collocations.Finder.ApplyWordFilter: it takes the stop-word set of the
  line-140 condition rather than an arbitrary predicate.
- Unicode: `strip` uses the ASCII part of Python's whitespace set (space,
  `\t`, `\n`, `\r`, `\x0b`, `\x0c`, `\x1c`-`\x1f`), `casefold` is ASCII
  lower-casing and `isalpha` means ASCII letters only.
- AverageReport.Average: it rounds the exact quotient. Python divides in
  floating point first, and the two can differ once totals pass 2^52: for a
  total of 3·2^51 + 4 over 3 paragraphs the exact quotient is 2^51 + 4/3,
  which rounds to 2^51 + 1, while the nearest double is 2^51 + 1.5, which
  rounds to 2^51 + 2.
- Scraper.Scraper.ScrapeKeyElements: it requires every listed tag to be a
  key of `stats`. The source looks a tag up (line 111) only for an
  occurrence that has a `<p>` (the test of line 105) in an accepted
  document, so only then would an unlisted tag raise `KeyError`. The table
  is built from the same tag list (line 57), so this does not happen.
- AverageReport.ProcessAverageTagLength: it iterates the dictionary in the
  order of a given tag list, which is the dictionary's insertion order
  (line 57).
- The English stop-word list of NLTK (line 54) is a parameter; only the ten
  ignored words are fixed.
