/**
 * `scrapeKeyElements` and the loop of the main program that threads the
 * unit counter `textFilePos` through every file. The process-wide state it
 * touches (the counter, the text files written under `txtFiles/`,
 * `averageTagLength` and `dateList`) is the state of one `Scraper` object.
 */
module Scraper {
  import opened Wrappers
  import opened TextNormalize
  import opened Extraction
  import opened Sequences

  class Scraper {
    /** `textFilePos`: the name of the next text unit. */
    var pos: nat
    /** The text files written so far, by their number. */
    var units: map<nat, string>
    /** `averageTagLength`: per tag, [occurrences, characters, words]. */
    var stats: map<string, TagLength>
    /** `dateList`: one archival year per accepted document that had a usable date. */
    var dates: seq<int>

    /** Units are numbered 0, 1, ... without gaps, and every tag entry is consistent. */
    ghost predicate Valid()
      reads this
    {
      && (forall k: nat :: k in units <==> k < pos)
      && (forall t :: t in stats ==> Consistent(stats[t]))
    }

    /** The state at program start: counter 0, no units, `[0, 0, 0]` for every tag, no dates. */
    constructor (elements: seq<string>)
      ensures Valid()
      ensures pos == 0 && units == map[] && dates == []
      ensures stats == map e | e in elements :: TagLength(0, 0, 0)
    {
      pos := 0;
      units := map[];
      stats := map e | e in elements :: TagLength(0, 0, 0);
      dates := [];
    }

    /**
     * Processes one file. A file that does not decode, or whose text has
     * neither `<ead ` nor `eadheader`, changes nothing. Any other file
     * gets exactly one unit, numbered with the incoming counter, even when
     * its text is empty; its paragraphs are added to the tag entries, its
     * year (if any) to the dates, and the counter moves on by one.
     */
    method ScrapeKeyElements(file: SourceFile, elements: seq<string>) returns (next: nat)
      requires Valid()
      requires forall e :: e in elements ==> e in stats
      modifies this
      ensures Valid() && next == pos
      ensures !Accepted(file) ==>
                pos == old(pos) && units == old(units) && stats == old(stats) && dates == old(dates)
      ensures Accepted(file) ==>
                && pos == old(pos) + 1
                && units == old(units)[old(pos) := UnitText(file.parsed, elements)]
                && stats == DocStats(old(stats), file.parsed, elements)
                && dates == old(dates) + YearOf(file.parsed)
    {
      if file.Undecodable? {
        return pos;
      }
      if !LooksLikeEad(file.content) {
        return pos;
      }
      var doc := file.parsed;
      match doc.year {
        case Some(y) => dates := dates + [y];
        case None =>
      }
      DocStatsGrows(stats, doc, elements);
      var words := ScrapeDocument(doc, elements);
      units := units[pos := words];
      pos := pos + 1;
      next := pos;
    }

    /**
     * The loop of `scrapeKeyElements` over the tags: the unit's text is the
     * tags' chunks in tag order, and every tag's entry takes in its paragraphs.
     */
    method ScrapeDocument(doc: Document, elements: seq<string>) returns (words: string)
      requires forall e :: e in elements ==> e in stats
      modifies this`stats
      ensures words == UnitText(doc, elements)
      ensures stats == DocStats(old(stats), doc, elements)
    {
      words := "";
      var i := 0;
      while i < |elements|
        invariant 0 <= i <= |elements|
        invariant words == UnitText(doc, elements[..i])
        invariant stats == DocStats(old(stats), doc, elements[..i])
      {
        UnitTextStep(doc, elements, i);
        DocStatsStep(old(stats), doc, elements, i);
        var strippedWord := ScrapeElement(doc, elements[i]);
        words := words + DropLast(strippedWord);
        i := i + 1;
      }
      assert elements[..i] == elements;
    }

    /**
     * The inner loop of `scrapeKeyElements` for one tag: visits the tag's
     * occurrences in document order, appends each normalised paragraph and
     * a space to `strippedWord`, and adds the paragraph to the tag's entry.
     */
    method ScrapeElement(doc: Document, element: string) returns (strippedWord: string)
      requires element in stats
      modifies this`stats
      ensures strippedWord == StrippedWord(Occurrences(doc, element))
      ensures stats == old(stats)[element := TagStats(old(stats)[element], Occurrences(doc, element))]
    {
      var elementList := Occurrences(doc, element);
      strippedWord := "";
      var j := 0;
      while j < |elementList|
        invariant 0 <= j <= |elementList|
        invariant strippedWord == StrippedWord(elementList[..j])
        invariant stats == old(stats)[element := TagStats(old(stats)[element], elementList[..j])]
      {
        StrippedWordStep(elementList, j);
        TagStatsStep(old(stats)[element], elementList, j);
        match elementList[j] {
          case Some(text) =>
            var processedWord := Normalize(text);
            AppendAssoc(strippedWord, processedWord, " ");
            strippedWord := strippedWord + processedWord + " ";
            stats := stats[element := AddParagraph(stats[element], processedWord)];
          case None =>
        }
        j := j + 1;
      }
      assert elementList[..j] == elementList;
    }

    /**
     * The main program's loop over all files, threading the counter: every
     * accepted file gets the next number, in order, and the tag entries and
     * dates accumulate over the accepted files.
     */
    method ScrapeAll(files: seq<SourceFile>, elements: seq<string>) returns (count: nat)
      requires Valid()
      requires forall e :: e in elements ==> e in stats
      modifies this
      ensures Valid() && count == pos
      ensures pos == old(pos) + |AcceptedUnits(files, elements)|
      ensures forall k :: k in old(units) ==> units[k] == old(units)[k]
      ensures forall j :: 0 <= j < |AcceptedUnits(files, elements)| ==>
                units[old(pos) + j] == AcceptedUnits(files, elements)[j]
      ensures stats == CorpusStats(old(stats), files, elements)
      ensures dates == old(dates) + CorpusYears(files)
    {
      var i := 0;
      while i < |files|
        invariant 0 <= i <= |files|
        invariant Valid()
        invariant stats.Keys == old(stats).Keys
        invariant pos == old(pos) + |AcceptedUnits(files[..i], elements)|
        invariant forall k :: k in old(units) ==> units[k] == old(units)[k]
        invariant forall j :: 0 <= j < |AcceptedUnits(files[..i], elements)| ==>
                    units[old(pos) + j] == AcceptedUnits(files[..i], elements)[j]
        invariant stats == CorpusStats(old(stats), files[..i], elements)
        invariant dates == old(dates) + CorpusYears(files[..i])
      {
        assert files[..i + 1][..i] == files[..i];
        ghost var acc := AcceptedUnits(files[..i], elements);
        var _ := ScrapeKeyElements(files[i], elements);
        assert AcceptedUnits(files[..i + 1], elements)
               == acc + if Accepted(files[i]) then [UnitText(files[i].parsed, elements)] else [];
        i := i + 1;
      }
      assert files[..i] == files;
      count := pos;
    }
  }
}
