/**
 * What `scrapeKeyElements` computes from one finding aid, as functions of
 * the already-parsed document: whether the file is accepted, the text unit
 * it writes, the tag-length triples it adds to, and the year it records.
 * The class in module Scraper performs these steps in place; this module
 * is its specification.
 */
module Extraction {
  import opened Wrappers
  import opened TextNormalize
  import opened Sequences

  /**
   * A finding aid as the HTML parser presents it. For every tag name, the
   * occurrences of that tag in document order, each holding the text of its
   * first descendant `<p>` (`None` when it has no `<p>`); and the year of the
   * first `<date>` element, `None` when there is no such element or its
   * date does not parse.
   */
  datatype Document = Document(paragraphs: map<string, seq<Option<string>>>, year: Option<int>)

  /**
   * A file handed to `scrapeKeyElements`: either one whose bytes do not
   * decode, or its decoded text together with the parse of that text.
   */
  datatype SourceFile = Undecodable | Decoded(content: string, parsed: Document)

  /** `soup.find_all(tag)`, each occurrence reduced to its first `<p>` text. */
  function Occurrences(doc: Document, tag: string): seq<Option<string>> {
    if tag in doc.paragraphs then doc.paragraphs[tag] else []
  }

  /** Python's `pat in s` on strings. */
  predicate Contains(s: string, pat: string) {
    exists i: nat :: i <= |s| && OccursAt(s, pat, i)
  }

  /** The sniffing test: an EAD root element or an EAD header somewhere in the text. */
  predicate LooksLikeEad(content: string) {
    Contains(content, "<ead ") || Contains(content, "eadheader")
  }

  /** A file is processed iff it decodes and passes the sniffing test. */
  predicate Accepted(f: SourceFile) {
    f.Decoded? && LooksLikeEad(f.content)
  }

  // ---------------------------------------------------------------------
  // The text of one tag and of one unit.

  /** What one occurrence appends to `strippedWord`. */
  function Piece(o: Option<string>): string {
    match o
    case None => ""
    case Some(p) => Normalize(p) + " "
  }

  /** `strippedWord` after the occurrences `occ` have been visited. */
  function StrippedWord(occ: seq<Option<string>>): string {
    if occ == [] then "" else StrippedWord(occ[..|occ| - 1]) + Piece(occ[|occ| - 1])
  }

  /** `StrippedWord` after one more occurrence. */
  lemma StrippedWordStep(occ: seq<Option<string>>, j: nat)
    requires j < |occ|
    ensures StrippedWord(occ[..j + 1]) == StrippedWord(occ[..j]) + Piece(occ[j])
  {
    assert occ[..j + 1][..j] == occ[..j];
  }

  /** Python's `s[:-1]`. */
  function DropLast(s: string): string {
    if s == [] then s else s[..|s| - 1]
  }

  /** The chunk one tag contributes to the unit: `strippedWord[:-1]`. */
  function Chunk(occ: seq<Option<string>>): string {
    DropLast(StrippedWord(occ))
  }

  /** The normalised paragraphs of the occurrences that have a `<p>`, in document order. */
  function Paragraphs(occ: seq<Option<string>>): seq<string> {
    if occ == [] then []
    else
      Paragraphs(occ[..|occ| - 1])
      + match occ[|occ| - 1] case None => [] case Some(p) => [Normalize(p)]
  }

  /** The chunk of one tag in one document. */
  function TagChunk(doc: Document, tag: string): string {
    Chunk(Occurrences(doc, tag))
  }

  /** The text unit written for an accepted document: the chunks of `elements`, in order, with nothing between them. */
  function UnitText(doc: Document, elements: seq<string>): string {
    if elements == [] then ""
    else UnitText(doc, elements[..|elements| - 1]) + TagChunk(doc, elements[|elements| - 1])
  }

  /** `UnitText` after one more tag. */
  lemma UnitTextStep(doc: Document, elements: seq<string>, i: nat)
    requires i < |elements|
    ensures UnitText(doc, elements[..i + 1]) == UnitText(doc, elements[..i]) + TagChunk(doc, elements[i])
  {
    assert elements[..i + 1][..i] == elements[..i];
  }

  /** `UnitText` of a tag list with one tag added at the end. */
  lemma UnitTextSnoc(doc: Document, elements: seq<string>, e: string)
    ensures UnitText(doc, elements + [e]) == UnitText(doc, elements) + TagChunk(doc, e)
  {
    assert (elements + [e])[..|elements|] == elements;
  }

  /** The accumulated `strippedWord` is the joined paragraphs followed by one space. */
  lemma {:induction false} StrippedWordIsJoin(occ: seq<Option<string>>)
    ensures StrippedWord(occ)
            == if Paragraphs(occ) == [] then "" else Join(Paragraphs(occ), ' ') + " "
  {
    if occ != [] {
      var init := occ[..|occ| - 1];
      StrippedWordIsJoin(init);
      match occ[|occ| - 1]
      case None =>
        assert Paragraphs(occ) == Paragraphs(init);
      case Some(p) =>
        var ps := Paragraphs(init);
        assert Paragraphs(occ) == ps + [Normalize(p)];
        JoinSnoc(ps, Normalize(p), ' ');
    }
  }

  /**
   * A tag's chunk is the normalised texts of its occurrences that have a
   * `<p>`, in document order, joined by single spaces (`""` when none has).
   */
  lemma ChunkIsJoin(occ: seq<Option<string>>)
    ensures Chunk(occ) == Join(Paragraphs(occ), ' ')
  {
    StrippedWordIsJoin(occ);
    var ps := Paragraphs(occ);
    if ps != [] {
      var j := Join(ps, ' ');
      assert (j + " ")[..|j + " "| - 1] == j;
    }
  }

  /** Occurrences without a `<p>` contribute nothing to the chunk. */
  lemma {:induction false} ParagraphsSkipNone(occ: seq<Option<string>>)
    ensures |Paragraphs(occ)| <= |occ|
    ensures (forall i :: 0 <= i < |occ| ==> occ[i].None?) ==> Paragraphs(occ) == []
  {
    if occ != [] {
      ParagraphsSkipNone(occ[..|occ| - 1]);
    }
  }

  /** Neither newline, tab nor upper-case letter. */
  predicate Clean(s: string) {
    forall i :: 0 <= i < |s| ==> s[i] != '\n' && s[i] != '\t' && !IsUpper(s[i])
  }

  lemma CleanAppend(a: string, b: string)
    requires Clean(a) && Clean(b)
    ensures Clean(a + b)
  {
    assert forall i :: |a| <= i < |a + b| ==> (a + b)[i] == b[i - |a|];
  }

  lemma {:induction false} StrippedWordClean(occ: seq<Option<string>>)
    ensures Clean(StrippedWord(occ))
  {
    if occ != [] {
      StrippedWordClean(occ[..|occ| - 1]);
      match occ[|occ| - 1]
      case None =>
        assert StrippedWord(occ) == StrippedWord(occ[..|occ| - 1]) + "";
      case Some(p) =>
        NormalizeIsNormal(p);
        CleanAppend(Normalize(p), " ");
        CleanAppend(StrippedWord(occ[..|occ| - 1]), Normalize(p) + " ");
    }
  }

  /** The unit text holds no newline, no tab and no upper-case letter. */
  lemma {:induction false} UnitTextClean(doc: Document, elements: seq<string>)
    ensures Clean(UnitText(doc, elements))
  {
    if elements != [] {
      var occ := Occurrences(doc, elements[|elements| - 1]);
      UnitTextClean(doc, elements[..|elements| - 1]);
      StrippedWordClean(occ);
      CleanAppend(UnitText(doc, elements[..|elements| - 1]), Chunk(occ));
    }
  }

  /** The unit of a tag list that is split in two is the two units, concatenated. */
  lemma {:induction false} UnitTextAppend(doc: Document, a: seq<string>, b: seq<string>)
    ensures UnitText(doc, a + b) == UnitText(doc, a) + UnitText(doc, b)
    decreases |b|
  {
    if b == [] {
      assert a + b == a;
    } else {
      var b' := b[..|b| - 1];
      var last := b[|b| - 1];
      assert b == b' + [last];
      UnitTextAppend(doc, a, b');
      UnitTextAppendStep(doc, a, b', last);
    }
  }

  lemma UnitTextAppendStep(doc: Document, a: seq<string>, b: seq<string>, last: string)
    requires UnitText(doc, a + b) == UnitText(doc, a) + UnitText(doc, b)
    ensures UnitText(doc, a + (b + [last])) == UnitText(doc, a) + UnitText(doc, b + [last])
  {
    AppendAssoc(a, b, [last]);
    UnitTextSnoc(doc, a + b, last);
    UnitTextSnoc(doc, b, last);
    AppendAssoc(UnitText(doc, a), UnitText(doc, b), TagChunk(doc, last));
  }

  /** A paragraph without whitespace is only case-folded. */
  lemma NormalizeWord(w: string)
    requires forall i :: 0 <= i < |w| ==> !IsSpace(w[i])
    ensures Normalize(w) == CaseFold(w)
  {
    assert w == [] || (!IsSpace(w[0]) && !IsSpace(w[|w| - 1]));
    StripOfTrimmed(w);
    SubNewlineTabRunsNoop(w);
    CollapseSpacesNoop(w);
  }

  /** The chunk of a tag with one whitespace-free paragraph is that paragraph, case-folded. */
  lemma ChunkOfWord(w: string)
    requires forall i :: 0 <= i < |w| ==> !IsSpace(w[i])
    ensures Chunk([Some(w)]) == CaseFold(w)
  {
    NormalizeWord(w);
    assert [Some(w)][..0] == [];
    assert StrippedWord([Some(w)]) == Normalize(w) + " ";
  }

  lemma FusionChunks()
    ensures Chunk([Some("Alpha")]) == "alpha" && Chunk([Some("Beta")]) == "beta"
  {
    ChunkOfWord("Alpha");
    ChunkOfWord("Beta");
    assert CaseFold("Alpha") == "alpha";
    assert CaseFold("Beta") == "beta";
  }

  /**
   * Chunks of consecutive tags are not separated: a paragraph "Alpha" under
   * `scopecontent` and "Beta" under `processinfo` give the unit "alphabeta".
   */
  lemma UnitTextFusesTags()
    ensures var doc := Document(map["scopecontent" := [Some("Alpha")], "processinfo" := [Some("Beta")]], None);
            UnitText(doc, ["scopecontent", "processinfo"]) == "alphabeta"
  {
    var doc := Document(map["scopecontent" := [Some("Alpha")], "processinfo" := [Some("Beta")]], None);
    var els := ["scopecontent", "processinfo"];
    assert Occurrences(doc, "scopecontent") == [Some("Alpha")];
    assert Occurrences(doc, "processinfo") == [Some("Beta")];
    FusionChunks();
    assert els[..1] == ["scopecontent"] && els[..1][..0] == [];
    assert UnitText(doc, els[..1]) == "alpha";
  }

  // ---------------------------------------------------------------------
  // Tag-length statistics: [occurrences, characters, words] per tag.

  /** One entry of `averageTagLength`. */
  datatype TagLength = TagLength(count: nat, chars: nat, words: nat)

  /** What every entry satisfies from its `[0, 0, 0]` start on. */
  predicate Consistent(t: TagLength) {
    t.words >= t.count && (t.count == 0 ==> t.chars == 0 && t.words == 0)
  }

  /** Componentwise `<=`. */
  predicate AtMost(a: TagLength, b: TagLength) {
    a.count <= b.count && a.chars <= b.chars && a.words <= b.words
  }

  /** The update for one processed paragraph. */
  function AddParagraph(t: TagLength, processed: string): TagLength {
    TagLength(t.count + 1, t.chars + |processed|, t.words + |Split(processed, ' ')|)
  }

  /** An entry after the occurrences `occ` of its tag have been visited. */
  function TagStats(t: TagLength, occ: seq<Option<string>>): TagLength {
    if occ == [] then t
    else
      var s := TagStats(t, occ[..|occ| - 1]);
      match occ[|occ| - 1]
      case None => s
      case Some(p) => AddParagraph(s, Normalize(p))
  }

  /** `TagStats` after one more occurrence. */
  lemma TagStatsStep(t: TagLength, occ: seq<Option<string>>, j: nat)
    requires j < |occ|
    ensures TagStats(t, occ[..j + 1])
            == match occ[j] case None => TagStats(t, occ[..j]) case Some(p) => AddParagraph(TagStats(t, occ[..j]), Normalize(p))
  {
    assert occ[..j + 1][..j] == occ[..j];
  }

  /** Total length of a list of strings. */
  function SumLen(ps: seq<string>): nat {
    if ps == [] then 0 else SumLen(ps[..|ps| - 1]) + |ps[|ps| - 1]|
  }

  /** Total number of spaces in a list of strings. */
  function SumSpaces(ps: seq<string>): nat {
    if ps == [] then 0 else SumSpaces(ps[..|ps| - 1]) + Count(ps[|ps| - 1], ' ')
  }

  /** `DocStats` after one more tag. */
  lemma DocStatsStep(stats: map<string, TagLength>, doc: Document, elements: seq<string>, i: nat)
    requires forall e :: e in elements ==> e in stats
    requires i < |elements|
    ensures var s := DocStats(stats, doc, elements[..i]);
            DocStats(stats, doc, elements[..i + 1]) == s[elements[i] := TagStats(s[elements[i]], Occurrences(doc, elements[i]))]
  {
    assert elements[..i + 1][..i] == elements[..i];
  }

  /** `t` grown once by the totals of the paragraphs `ps`. */
  function TagStatsGrow(t: TagLength, ps: seq<string>): TagLength {
    TagLength(t.count + |ps|, t.chars + SumLen(ps), t.words + SumSpaces(ps) + |ps|)
  }

  /**
   * Visiting a tag's occurrences adds the number of paragraphs to the count,
   * their total length to the characters, and for each paragraph its spaces
   * plus one to the words.
   */
  lemma {:induction false} TagStatsTotals(t: TagLength, occ: seq<Option<string>>)
    ensures TagStats(t, occ) == TagStatsGrow(t, Paragraphs(occ))
  {
    if occ != [] {
      var init := occ[..|occ| - 1];
      TagStatsTotals(t, init);
      var ps := Paragraphs(init);
      match occ[|occ| - 1]
      case None =>
        assert Paragraphs(occ) == ps;
      case Some(p) =>
        assert Paragraphs(occ) == ps + [Normalize(p)];
        assert (ps + [Normalize(p)])[..|ps|] == ps;
        SplitLength(Normalize(p), ' ');
    }
  }

  lemma {:induction false} JoinLength(ps: seq<string>)
    requires ps != []
    ensures |Join(ps, ' ')| == SumLen(ps) + |ps| - 1
    ensures Count(Join(ps, ' '), ' ') == SumSpaces(ps) + |ps| - 1
  {
    var init := ps[..|ps| - 1];
    var last := ps[|ps| - 1];
    assert ps == init + [last];
    JoinSnoc(init, last, ' ');
    if init != [] {
      JoinLength(init);
      CountAppend(Join(init, ' '), [' '], ' ');
      CountAppend(Join(init, ' ') + [' '], last, ' ');
    }
  }

  /**
   * What one document adds to a tag's entry agrees with that tag's chunk:
   * one occurrence per paragraph; the characters of the chunk except its
   * separating spaces; as many words as `chunk.split(" ")` has pieces.
   */
  lemma TagStatsMatchChunk(t: TagLength, occ: seq<Option<string>>)
    ensures var u := TagStats(t, occ);
            var n := |Paragraphs(occ)|;
            u.count == t.count + n
            && (n == 0 ==> u == t)
            && (n > 0 ==> u.chars == t.chars + |Chunk(occ)| - (n - 1)
                          && u.words == t.words + |Split(Chunk(occ), ' ')|)
  {
    TagStatsTotals(t, occ);
    ChunkIsJoin(occ);
    var ps := Paragraphs(occ);
    if ps != [] {
      JoinLength(ps);
      SplitLength(Join(ps, ' '), ' ');
    }
  }

  /** Each entry only grows, and stays consistent. */
  lemma {:induction false} TagStatsGrows(t: TagLength, occ: seq<Option<string>>)
    requires Consistent(t)
    ensures AtMost(t, TagStats(t, occ)) && Consistent(TagStats(t, occ))
  {
    if occ != [] {
      TagStatsGrows(t, occ[..|occ| - 1]);
      match occ[|occ| - 1]
      case None =>
      case Some(p) =>
        SplitLength(Normalize(p), ' ');
    }
  }

  /** `averageTagLength` after one accepted document. */
  function DocStats(stats: map<string, TagLength>, doc: Document, elements: seq<string>): (r: map<string, TagLength>)
    requires forall e :: e in elements ==> e in stats
    ensures r.Keys == stats.Keys
  {
    if elements == [] then stats
    else
      var s := DocStats(stats, doc, elements[..|elements| - 1]);
      var e := elements[|elements| - 1];
      s[e := TagStats(s[e], Occurrences(doc, e))]
  }

  /** `t` grown `k` times over by the totals of the paragraphs `ps`. */
  function Grown(t: TagLength, k: nat, ps: seq<string>): TagLength {
    if k == 0 then t else TagStatsGrow(Grown(t, k - 1, ps), ps)
  }

  /** Growing k times adds k times each total. */
  lemma {:induction false} GrownTotals(t: TagLength, k: nat, ps: seq<string>)
    ensures Grown(t, k, ps)
            == TagLength(t.count + k * |ps|, t.chars + k * SumLen(ps), t.words + k * (SumSpaces(ps) + |ps|))
  {
    if k > 0 {
      GrownTotals(t, k - 1, ps);
      assert k * |ps| == (k - 1) * |ps| + |ps|;
      assert k * SumLen(ps) == (k - 1) * SumLen(ps) + SumLen(ps);
      assert k * (SumSpaces(ps) + |ps|) == (k - 1) * (SumSpaces(ps) + |ps|) + (SumSpaces(ps) + |ps|);
    }
  }

  /**
   * After one document, a tag's entry has grown by the totals of that tag's
   * paragraphs once for every time the tag is listed in `elements`; a tag
   * that is not listed is untouched.
   */
  lemma {:induction false} DocStatsTotals(stats: map<string, TagLength>, doc: Document, elements: seq<string>, tag: string)
    requires forall e :: e in elements ==> e in stats
    requires tag in stats
    ensures DocStats(stats, doc, elements)[tag]
            == Grown(stats[tag], multiset(elements)[tag], Paragraphs(Occurrences(doc, tag)))
  {
    if elements != [] {
      var init := elements[..|elements| - 1];
      var e := elements[|elements| - 1];
      var ps := Paragraphs(Occurrences(doc, tag));
      assert multiset(elements)[tag] == multiset(init)[tag] + if e == tag then 1 else 0 by {
        assert elements == init + [e];
      }
      DocStatsTotals(stats, doc, init, tag);
      if e == tag {
        var s := DocStats(stats, doc, init);
        TagStatsTotals(s[tag], Occurrences(doc, tag));
      }
    }
  }

  /** A document leaves every entry consistent and never shrinks one. */
  lemma {:induction false} DocStatsGrows(stats: map<string, TagLength>, doc: Document, elements: seq<string>)
    requires forall e :: e in elements ==> e in stats
    requires forall t :: t in stats ==> Consistent(stats[t])
    ensures forall t :: t in stats ==>
              Consistent(DocStats(stats, doc, elements)[t]) && AtMost(stats[t], DocStats(stats, doc, elements)[t])
  {
    if elements != [] {
      var init := elements[..|elements| - 1];
      var e := elements[|elements| - 1];
      DocStatsGrows(stats, doc, init);
      var s := DocStats(stats, doc, init);
      TagStatsGrows(s[e], Occurrences(doc, e));
    }
  }

  /** The year list entry of one accepted document: at most one year. */
  function YearOf(doc: Document): (r: seq<int>)
    ensures |r| <= 1
    ensures doc.year.None? <==> r == []
  {
    match doc.year
    case None => []
    case Some(y) => [y]
  }

  // ---------------------------------------------------------------------
  // A run over many files: the counter threading of the main program.

  /** The units written for `files`, in order: one per accepted file. */
  function AcceptedUnits(files: seq<SourceFile>, elements: seq<string>): seq<string> {
    if files == [] then []
    else
      var f := files[|files| - 1];
      AcceptedUnits(files[..|files| - 1], elements)
      + if Accepted(f) then [UnitText(f.parsed, elements)] else []
  }

  /** `averageTagLength` after all of `files`. */
  function CorpusStats(stats: map<string, TagLength>, files: seq<SourceFile>, elements: seq<string>): (r: map<string, TagLength>)
    requires forall e :: e in elements ==> e in stats
    ensures r.Keys == stats.Keys
  {
    if files == [] then stats
    else
      var f := files[|files| - 1];
      var s := CorpusStats(stats, files[..|files| - 1], elements);
      if Accepted(f) then DocStats(s, f.parsed, elements) else s
  }

  /** `dateList` entries contributed by `files`. */
  function CorpusYears(files: seq<SourceFile>): seq<int> {
    if files == [] then []
    else
      var f := files[|files| - 1];
      CorpusYears(files[..|files| - 1]) + if Accepted(f) then YearOf(f.parsed) else []
  }

  /**
   * Every file yields at most one unit and at most one year, and a year only
   * alongside a unit; files that are all skipped yield neither.
   */
  lemma {:induction false} AcceptedUnitsBound(files: seq<SourceFile>, elements: seq<string>)
    ensures |CorpusYears(files)| <= |AcceptedUnits(files, elements)| <= |files|
    ensures (forall i :: 0 <= i < |files| ==> !Accepted(files[i])) ==> AcceptedUnits(files, elements) == []
  {
    if files != [] {
      AcceptedUnitsBound(files[..|files| - 1], elements);
    }
  }

  /** Threading the counter through two batches of files is threading it through both in turn. */
  lemma {:induction false} AcceptedUnitsAppend(a: seq<SourceFile>, b: seq<SourceFile>, elements: seq<string>)
    ensures AcceptedUnits(a + b, elements) == AcceptedUnits(a, elements) + AcceptedUnits(b, elements)
    decreases |b|
  {
    if b == [] {
      assert a + b == a;
    } else {
      assert (a + b)[..|a + b| - 1] == a + b[..|b| - 1];
      AcceptedUnitsAppend(a, b[..|b| - 1], elements);
    }
  }

  /** Over a whole run every entry only grows and stays consistent. */
  lemma {:induction false} CorpusStatsGrows(stats: map<string, TagLength>, files: seq<SourceFile>, elements: seq<string>)
    requires forall e :: e in elements ==> e in stats
    requires forall t :: t in stats ==> Consistent(stats[t])
    ensures forall t :: t in stats ==>
              Consistent(CorpusStats(stats, files, elements)[t])
              && AtMost(stats[t], CorpusStats(stats, files, elements)[t])
  {
    if files != [] {
      var f := files[|files| - 1];
      CorpusStatsGrows(stats, files[..|files| - 1], elements);
      if Accepted(f) {
        DocStatsGrows(CorpusStats(stats, files[..|files| - 1], elements), f.parsed, elements);
      }
    }
  }
}
