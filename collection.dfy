/**
 * The collection step of `process_collection`: the sections of every
 * document that was found are tagged with its file name and pooled, ranked
 * once, and the ranked list becomes the output's `extracted_sections` (the
 * top ten, ranked 1..N) and `subsection_analysis` (the top five, with a
 * refined excerpt of at most 300 characters plus `...`).
 *
 * Reading the configuration, looking files up and writing JSON are not
 * modelled: each document arrives as a file name with what reading it gave.
 */
module Collection {
  import opened Text
  import opened Segmenter
  import opened Ranker

  /** What reading one listed document gave. */
  datatype DocumentInput =
    | Missing                    // no such file: the document is skipped
    | Unreadable                 // the PDF library failed: no sections, yet the file was processed
    | Pages(texts: seq<string>)  // the text of each page, in page order

  datatype DocumentRef = DocumentRef(filename: string, input: DocumentInput)

  datatype ExtractedSection =
    ExtractedSection(document: string, sectionTitle: string, importanceRank: nat, pageNumber: nat)

  datatype SubsectionAnalysis = SubsectionAnalysis(document: string, refinedText: string, pageNumber: nat)

  /** The metadata block, without its timestamp. */
  datatype Metadata = Metadata(inputDocuments: seq<string>, persona: string, jobToBeDone: string)

  datatype Output = Output(
    metadata: Metadata,
    extractedSections: seq<ExtractedSection>,
    subsectionAnalysis: seq<SubsectionAnalysis>)

  /** How many ranked sections become `extracted_sections`. */
  const MaxExtracted: nat := 10

  /** How many ranked sections become `subsection_analysis`. */
  const MaxAnalysed: nat := 5

  /** Where a refined excerpt is cut. */
  const RefinedLimit: nat := 300

  // -------------------------------------------------------------- gather

  /** The sections `extract_text_from_pdf` returns for a document that exists. */
  function SectionsOf(input: DocumentInput): seq<Section>
  {
    match input
    case Missing => []
    case Unreadable => []
    case Pages(texts) => DocumentSections(texts)
  }

  /** Every section tagged with the document's file name. */
  function TagAll(filename: string, sections: seq<Section>): seq<Tagged>
  {
    if sections == [] then []
    else TagAll(filename, sections[..|sections| - 1]) + [Tagged(filename, sections[|sections| - 1])]
  }

  /** The pooled, tagged sections of all documents that were found, in order. */
  function Gathered(docs: seq<DocumentRef>): seq<Tagged>
  {
    if docs == [] then []
    else
      var doc := docs[|docs| - 1];
      Gathered(docs[..|docs| - 1]) + (if doc.input.Missing? then [] else TagAll(doc.filename, SectionsOf(doc.input)))
  }

  /** The names of the documents that were found, in order. */
  function ProcessedNames(docs: seq<DocumentRef>): seq<string>
  {
    if docs == [] then []
    else
      var doc := docs[|docs| - 1];
      ProcessedNames(docs[..|docs| - 1]) + (if doc.input.Missing? then [] else [doc.filename])
  }

  /** Lines 173-188: extract the sections of every document found, tag them
      with the file name, and pool them. */
  method GatherSections(docs: seq<DocumentRef>) returns (all: seq<Tagged>, processed: seq<string>)
    ensures all == Gathered(docs)
    ensures processed == ProcessedNames(docs)
  {
    all := [];
    processed := [];
    for i := 0 to |docs|
      invariant all == Gathered(docs[..i])
      invariant processed == ProcessedNames(docs[..i])
    {
      var doc := docs[i];
      assert docs[..i + 1][..i] == docs[..i];
      if !doc.input.Missing? {
        var sections: seq<Section> := [];
        if doc.input.Pages? {
          sections := ExtractSections(doc.input.texts);
        }
        var tagged: seq<Tagged> := [];
        for j := 0 to |sections|
          invariant tagged == TagAll(doc.filename, sections[..j])
        {
          tagged := tagged + [Tagged(doc.filename, sections[j])];
          assert sections[..j + 1][..j] == sections[..j];
        }
        assert sections[..|sections|] == sections;
        all := all + tagged;
        processed := processed + [doc.filename];
      }
    }
    assert docs[..|docs|] == docs;
  }

  lemma {:induction false} TagAllFrom(filename: string, sections: seq<Section>, t: Tagged)
    requires t in TagAll(filename, sections)
    ensures t.document == filename && t.section in sections
  {
    var init := sections[..|sections| - 1];
    if t in TagAll(filename, init) {
      TagAllFrom(filename, init, t);
    }
  }

  /** Every pooled section belongs to one document that was found: it carries
      that document's file name, a non-empty title, and the number of one of
      that document's pages. */
  lemma {:induction false} GatheredFromDocuments(docs: seq<DocumentRef>, t: Tagged)
    requires t in Gathered(docs)
    ensures exists i :: (0 <= i < |docs| && docs[i].filename == t.document && docs[i].input.Pages? &&
                         t.section.title != "" && 1 <= t.section.page <= |docs[i].input.texts|)
    ensures t.document in ProcessedNames(docs)
  {
    var init := docs[..|docs| - 1];
    var last := docs[|docs| - 1];
    if t in Gathered(init) {
      GatheredFromDocuments(init, t);
      var i :| 0 <= i < |init| && init[i].filename == t.document && init[i].input.Pages? &&
        t.section.title != "" && 1 <= t.section.page <= |init[i].input.texts|;
      assert docs[i] == init[i];
    } else {
      TagAllFrom(last.filename, SectionsOf(last.input), t);
      DocumentSectionsWellFormed(last.input.texts);
      assert docs[|docs| - 1] == last;
    }
  }

  // ------------------------------------------------------------ assembly

  /** Line 207: the content, or its first 300 characters followed by `...`. */
  function RefinedText(content: string): (r: string)
    ensures |r| <= RefinedLimit + 3
    ensures Take(content, RefinedLimit) <= r
    ensures |content| <= RefinedLimit ==> r == content
    ensures |content| > RefinedLimit ==> r[RefinedLimit..] == "..."
  {
    if |content| > RefinedLimit then content[..RefinedLimit] + "..." else content
  }

  /** Refining an excerpt a second time leaves it as it is. */
  lemma RefinedTextIdempotent(content: string)
    ensures RefinedText(RefinedText(content)) == RefinedText(content)
  {
    var r := RefinedText(content);
    if |content| > RefinedLimit {
      assert r[..RefinedLimit] + "..." == r;
    }
  }

  /** The `extracted_sections` entries of a ranked list. */
  function ExtractedOf(ranked: seq<Scored>): seq<ExtractedSection>
  {
    var n := Min(MaxExtracted, |ranked|);
    seq(n, i requires 0 <= i < n =>
      ExtractedSection(ranked[i].item.document, ranked[i].item.section.title, i + 1, ranked[i].item.section.page))
  }

  /** The `subsection_analysis` entries of a ranked list. */
  function AnalysisOf(ranked: seq<Scored>): seq<SubsectionAnalysis>
  {
    var n := Min(MaxAnalysed, |ranked|);
    seq(n, i requires 0 <= i < n =>
      SubsectionAnalysis(ranked[i].item.document, RefinedText(ranked[i].item.section.content), ranked[i].item.section.page))
  }

  /** Lines 194-209 and 220: one entry per top-ten section for each list,
      then the analysis list cut to five. */
  method AssembleOutput(ranked: seq<Scored>) returns (extracted: seq<ExtractedSection>, analysis: seq<SubsectionAnalysis>)
    ensures extracted == ExtractedOf(ranked)
    ensures analysis == AnalysisOf(ranked)
  {
    extracted := [];
    var candidates: seq<SubsectionAnalysis> := [];
    var top := ranked[..Min(MaxExtracted, |ranked|)];
    for i := 0 to |top|
      invariant |extracted| == i && |candidates| == i
      invariant forall k :: 0 <= k < i ==> (extracted[k] ==
        ExtractedSection(ranked[k].item.document, ranked[k].item.section.title, k + 1, ranked[k].item.section.page))
      invariant forall k :: 0 <= k < i ==> (candidates[k] ==
        SubsectionAnalysis(ranked[k].item.document, RefinedText(ranked[k].item.section.content), ranked[k].item.section.page))
    {
      var section := top[i];
      extracted := extracted + [ExtractedSection(section.item.document, section.item.section.title, i + 1, section.item.section.page)];
      var refined := RefinedText(section.item.section.content);
      candidates := candidates + [SubsectionAnalysis(section.item.document, refined, section.item.section.page)];
    }
    analysis := candidates[..Min(MaxAnalysed, |candidates|)];
  }

  /** The output of a collection, timestamp aside. */
  function CollectionOutput(docs: seq<DocumentRef>, persona: string, task: string): Output
  {
    var ranked := Rank(Gathered(docs), persona, task);
    Output(Metadata(ProcessedNames(docs), persona, task), ExtractedOf(ranked), AnalysisOf(ranked))
  }

  /** Lines 168-223: gather, rank and assemble one collection. */
  method ProcessCollection(docs: seq<DocumentRef>, persona: string, task: string) returns (out: Output)
    ensures out == CollectionOutput(docs, persona, task)
  {
    var all, processed := GatherSections(docs);
    var ranked := AnalyzeRelevance(all, persona, task);
    var extracted, analysis := AssembleOutput(ranked);
    out := Output(Metadata(processed, persona, task), extracted, analysis);
  }

  /** The output lists: at most ten extracted sections ranked 1..N in ranked
      order, each naming a document that was processed, with a non-empty title
      and a page number of at least 1; at most five analyses that follow the
      same order, each with an excerpt of at most 303 characters. */
  lemma CollectionOutputShape(docs: seq<DocumentRef>, persona: string, task: string)
    ensures var out := CollectionOutput(docs, persona, task);
      var extracted := out.extractedSections;
      var analysis := out.subsectionAnalysis;
      && |extracted| <= MaxExtracted
      && |analysis| <= MaxAnalysed
      && |analysis| == Min(MaxAnalysed, |extracted|)
      && (forall i :: 0 <= i < |extracted| ==>
            && extracted[i].importanceRank == i + 1
            && extracted[i].document in out.metadata.inputDocuments
            && extracted[i].sectionTitle != ""
            && extracted[i].pageNumber >= 1)
      && (forall i :: 0 <= i < |analysis| ==>
            && analysis[i].document == extracted[i].document
            && analysis[i].pageNumber == extracted[i].pageNumber
            && |analysis[i].refinedText| <= RefinedLimit + 3)
  {
    var ranked := Rank(Gathered(docs), persona, task);
    RankedOutput(Gathered(docs), persona, task);
    forall i | 0 <= i < Min(MaxExtracted, |ranked|)
      ensures ranked[i].item.document in ProcessedNames(docs)
      ensures ranked[i].item.section.title != "" && ranked[i].item.section.page >= 1
    {
      GatheredFromDocuments(docs, ranked[i].item);
    }
  }

  /** A collection none of whose documents was found yields empty lists and a
      metadata block naming no document. */
  lemma NoDocumentFound(docs: seq<DocumentRef>, persona: string, task: string)
    requires forall i :: 0 <= i < |docs| ==> docs[i].input.Missing?
    ensures CollectionOutput(docs, persona, task) == Output(Metadata([], persona, task), [], [])
  {
    NothingGathered(docs);
  }

  lemma {:induction false} NothingGathered(docs: seq<DocumentRef>)
    requires forall i :: 0 <= i < |docs| ==> docs[i].input.Missing?
    ensures Gathered(docs) == [] && ProcessedNames(docs) == []
  {
    if docs != [] {
      NothingGathered(docs[..|docs| - 1]);
    }
  }
}
