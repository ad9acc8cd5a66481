# Persona-driven section extraction, modelled in Dafny

This project models the core of `process_collections.py`. That script reads
a collection of PDF documents, cuts every page's text into titled sections,
scores each section for relevance to a persona ("Travel Planner",
"HR Professional", "Food Contractor") and a job description, and writes the
best sections out as JSON.

Four modules, one per concern:

- `text.dfy` (`Text`): the Python string built-ins the core relies on,
  over `seq<char>`. These are `split('\n')`, `' '.join`, `strip()`,
  `isdigit()`, `isupper()`, `istitle()`, `lower()`, the `in` operator,
  `str.count` (leftmost, non-overlapping) and the decimal rendering of a
  page number. `isdigit()` and `isupper()` are defined directly as
  predicates. The others come with lemmas that pin them down:
  - `split`/`join`: a round trip;
  - `strip`: a slice that removes exactly the surrounding whitespace;
  - `istitle`: a scan proved equivalent to the title-case rule;
  - `count`: the largest number of non-overlapping occurrences, and
    positive exactly when the pattern occurs;
  - decimal rendering: it reads back as the number and has no leading
    zero.
- `segmenter.dfy` (`Segmenter`): `extract_text_from_pdf`. Its parts:
  - the noise filter, which keeps stripped lines longer than 10 characters
    that are not all digits;
  - the header heuristic;
  - the per-page state machine that closes a section at each header;
  - the whole-document fallback over the first three pages.

  The line loop (`SegmentLines`, run by `SegmentPage`) is an imperative method with loop
  invariants proved against the state-machine function `Walk`. `Walk` is
  proved equal to an independent block decomposition (`PageBlocks`): each
  header with the non-header lines after it, any lines before the first
  header dropped, and a page without headers becomes one
  `Page N Content` block.
- `ranker.dfy` (`Ranker`): `analyze_relevance`.
  - Scoring: the keyword tables, job keywords chosen by trigger words, and
    the integer score `2 × persona hits + 3 × job hits + length bonus`.
  - Filtering: sections scoring zero are dropped.
  - Sorting: Python's stable sort by descending score is an in-place
    insertion sort on an array, proved equal to a sort function. That
    function is proved sorted, a permutation of its input, and stable: for
    every score, the sections with that score keep their input order.
  - The cut to twenty.
- `collection.dfy` (`Collection`): the part of `process_collection` that
  pools the sections of every document found and assembles the output
  lists. `extracted_sections` holds the top 10, ranked 1..N.
  `subsection_analysis` holds the top 5, each with a refined excerpt of at
  most 300 characters plus `...`.

Reading a PDF is a parameter. A document is `Missing` (the file does not
exist), `Unreadable` (the PDF library raised an exception, so the source
returns no sections), or the sequence of its page texts.

Three behaviours of the code that are easy to misread:

- The whole-document fallback cuts content at 500 characters and adds no
  ellipsis (line 85). Only the refined excerpt of the output (line 207)
  is cut at 300 characters with `...`.
- Keyword hits are counted with `str.count` (lines 129 and 133), which
  counts non-overlapping occurrences from the left: `"aaa".count("aa")`
  is 1 (`Text.CountExamples`).
- A page whose only text is `"1"` gives no section from the per-page pass
  (`Segmenter.PageNumberOnlyPage`). A document made of that one page still
  reaches the whole-document fallback, which emits
  `Section("Page 1", 1, "")` (`Segmenter.PageNumberOnlyDocument`).

## Model

| member | source | states |
|---|---|---|
| Text.Take | process_collections.py:84-85 | slicing `[:n]` gives the first min(n, len) characters, a prefix of the string |
| Text.Lower | process_collections.py:123 | lower-casing keeps the length and maps each character by itself |
| Text.LowerIsLowercase | process_collections.py:41 | a lower-cased string has no upper-case letter, leaves uncased characters alone, and lower-casing twice changes nothing |
| Text.SplitJoin | process_collections.py:23 | joining the parts of `split('\n')` with the separator gives the text back, and no part contains the separator |
| Text.JoinSplit | process_collections.py:23 | joining the parts of `split('\n')` with the separator gives the text back |
| Text.SplitPartsLackSeparator | process_collections.py:23 | no part of `split('\n')` contains the separator |
| Text.SplitCovers | process_collections.py:23 | every character other than the separator lands in some part of the split |
| Text.StripSlice | process_collections.py:28 | `strip()` is a slice of the line with only whitespace cut from either end, and it starts and ends with non-whitespace when non-empty |
| Text.StripBlank | process_collections.py:80-82 | a stripped string is empty exactly when the string is all whitespace, and stripping is idempotent |
| Text.IsTitleIffTitleCased | process_collections.py:40 | `istitle()` holds exactly when the string has a cased letter, every upper-case letter follows an uncased character and every lower-case letter follows a cased one |
| Text.Join | process_collections.py:48 | `' '.join` of no parts is empty, and of one part is that part |
| Text.JoinShape | process_collections.py:48 | a join of one or more parts starts with the first part, and its length is the parts' total length plus one separator between each two |
| Text.IsDigits | process_collections.py:29 | a string of digits only is not upper-case and lower-casing leaves it unchanged |
| Text.IsUpper | process_collections.py:40 | an upper-case string has a letter that lower-casing changes |
| Text.Count | process_collections.py:129 | non-overlapping occurrences of a non-empty keyword fit in the text: count × keyword length ≤ text length |
| Text.CountAchieved | process_collections.py:129 | the text holds `count` occurrences of the keyword at increasing positions, no two overlapping |
| Text.CountMaximal | process_collections.py:129 | no set of non-overlapping occurrences is larger than `count`, so `count` is exactly the largest number of them |
| Text.CountExamples | process_collections.py:129 | `"trip trip".count("trip")` is 2 and `"aaa".count("aa")` is 1 |
| Text.CountPositiveIffContains | process_collections.py:129-133 | `count` is positive exactly when the keyword occurs in the text |
| Text.Decimal | process_collections.py:67 | a page number is rendered with decimal digits only, `0` as `"0"`, and with no leading zero otherwise |
| Text.DecimalRoundTrip | process_collections.py:67 | reading the rendered digits back gives the page number |
| Segmenter.IsHeader | process_collections.py:39-41 | a line taken as a header is non-empty and shorter than 100 characters, so a header always opens a section title |
| Segmenter.KeptLinesExactly | process_collections.py:26-30 | a line is kept exactly when it is the stripped form of some raw line, longer than 10 characters and not all digits |
| Segmenter.MeaningfulLines | process_collections.py:22-30 | the filter loop returns the kept stripped lines of the page in order |
| Segmenter.Walk | process_collections.py:34-70 | the state machine emits at most one section more than it reads lines. Each section carries the page number, and its title is the open title, one of the lines, or `Page N Content` |
| Segmenter.SegmentLines | process_collections.py:34-70 | the line loop returns exactly the sections of the header state machine run over the kept lines, starting with no title and no content |
| Segmenter.SegmentPage | process_collections.py:32-70 | the page loop returns the sections of the header state machine over the kept lines |
| Segmenter.SegmentationIsBlockDecomposition | process_collections.py:37-70 | the state machine emits one section per block of the decomposition: each header with its following body lines, any leading body lines dropped when a header follows, and a page without headers as one `Page N Content` block |
| Segmenter.PageBlocksWellFormed | process_collections.py:37-70 | every block is a header of the page with a non-empty body of non-header page lines, or the whole headerless page under `Page N Content` |
| Segmenter.PageSectionsFromKeptLines | process_collections.py:23-70 | every section of a page has that page's number, non-empty content, and a title that is `Page N Content` or a kept header line |
| Segmenter.NoHeaderPage | process_collections.py:64-70 | a page with kept lines but no header yields exactly one section, `Page N Content`, with all its lines joined by spaces |
| Segmenter.LeadingBodyDiscarded | process_collections.py:44-55 | body lines before the first header are dropped when a header follows them |
| Segmenter.HeaderThenHeader | process_collections.py:44-53 | a header directly followed by another header emits no section of its own |
| Segmenter.PageNumberOnlyPage | process_collections.py:23-32 | a page whose text is only `"1"` yields no section from the per-page pass |
| Segmenter.FallbackSection | process_collections.py:80-91 | a page gives at most one fallback section, for its first non-blank line. Its content is the first min(500, length) characters of the remaining non-blank lines joined by spaces, with no ellipsis. Its title is the first min(100, length) characters of that line when the line is longer than 10 characters, and `Page N` otherwise |
| Segmenter.FallbackSectionShape | process_collections.py:79-91 | a non-blank page yields one fallback section, a blank page none. Its content is at most 500 characters. Its title is `Page N` or a first line of 11 to 100 characters |
| Segmenter.FallbackSectionsOfPages | process_collections.py:77-91 | each fallback section names a non-blank page and is exactly that page's fallback section |
| Segmenter.FallbackInPageOrder | process_collections.py:77-91 | fallback sections come in strictly increasing page order |
| Segmenter.FallbackCount | process_collections.py:77-91 | the fallback yields one section per non-blank page |
| Segmenter.FallbackOnePerNonBlankPage | process_collections.py:77-91 | the fallback yields as many sections as non-blank pages, in strictly increasing page order. Each is the fallback section of the non-blank page it names, with content of at most 500 characters |
| Segmenter.WholeDocumentFallback | process_collections.py:74-92 | the fallback loop returns the fallback sections of the first min(3, page count) pages |
| Segmenter.ExtractSections | process_collections.py:18-94 | a document's sections are the per-page sections, or the fallback's when the per-page pass found none |
| Segmenter.PrimarySectionsWellFormed | process_collections.py:18-70 | every per-page section has a non-empty title and a page number between 1 and the page count |
| Segmenter.DocumentSectionsWellFormed | process_collections.py:74-94 | every extracted section has a non-empty title and a valid 1-based page number. When the per-page pass found nothing, there is one section per non-blank page among the first three, in page order, each that page's fallback section |
| Segmenter.PageNumberOnlyDocument | process_collections.py:18-94 | a one-page document whose text is `"1"` yields the fallback section `Page 1` with empty content |
| Ranker.JobKeywords | process_collections.py:111-117 | the job keywords hold at most the three groups, open with the travel group when "trip" or "travel" is mentioned, and close with the catering group when "menu" or "buffet" is |
| Ranker.JobKeywordsByTrigger | process_collections.py:111-117 | the job keywords are empty exactly when no trigger word is mentioned. A keyword is a job keyword exactly when it belongs to a group whose trigger ("trip"/"travel", "forms"/"fillable", "menu"/"buffet") the lower-cased task mentions |
| Ranker.ScoreSection | process_collections.py:121-137 | the scoring loops compute 2 × persona hits + 3 × job hits + 1 when content exceeds 100 characters |
| Ranker.HitsPositiveIff | process_collections.py:128-133 | the keyword hit count is positive exactly when some keyword occurs in the lower-cased text |
| Ranker.ScorePositiveIff | process_collections.py:122-139 | a section scores above zero exactly when a persona keyword or a job keyword occurs in its text, or its content exceeds 100 characters |
| Ranker.UnknownPersonaScoresJobOnly | process_collections.py:126-133 | for a persona not in the table only job keywords and the length bonus count |
| Ranker.RelevantSound | process_collections.py:119-141 | every retained section is an input section, scored with its computed score, which is positive |
| Ranker.RelevantComplete | process_collections.py:119-141 | every input section whose computed score is positive is retained with that score |
| Ranker.RelevantExactly | process_collections.py:119-141 | a scored section is retained exactly when it is an input section whose score is its computed score and is positive |
| Ranker.SortDescSortedPermutation | process_collections.py:144 | the sort yields scores in descending order and is a permutation of its input |
| Ranker.SortDescStable | process_collections.py:144 | sections with equal scores keep their input order through the sort |
| Ranker.InsertLast | process_collections.py:144 | one insertion step places the next element into the sorted prefix and leaves the rest of the array alone |
| Ranker.SortByScoreDesc | process_collections.py:144 | sorting in place leaves the array holding the stable descending sort of its old contents |
| Ranker.SortDescMembers | process_collections.py:144 | the sort keeps the length and the members of its input |
| Ranker.Rank | process_collections.py:144-145 | the ranker returns min(20, number of positive-scoring sections) sections, each one of the positive-scoring sections |
| Ranker.AnalyzeRelevance | process_collections.py:100-145 | the ranker returns the top 20 of the stably sorted positive-scoring sections |
| Ranker.RankedOutput | process_collections.py:139-145 | the result has min(20, number retained) sections in descending score order, all input sections with their positive computed score. It is a prefix of the sorted list, no dropped section outscores a kept one, and ties keep input order |
| Ranker.TripScenario | process_collections.py:100-145 | for a travel planner planning a trip, a section about trip activities is ranked and an `Index` section with no content is dropped |
| Collection.GatherSections | process_collections.py:173-188 | the pooled sections are those of each document found, in order, tagged with the file name. Processed names list exactly the documents found |
| Collection.GatheredFromDocuments | process_collections.py:173-186 | every pooled section carries the name of a processed document, a non-empty title, and the number of one of that document's pages |
| Collection.RefinedText | process_collections.py:207 | the excerpt is the content when at most 300 characters. Otherwise it is the first 300 characters followed by `...`, so it never exceeds 303 |
| Collection.RefinedTextIdempotent | process_collections.py:207 | refining an excerpt again leaves it unchanged |
| Collection.AssembleOutput | process_collections.py:194-220 | the output lists hold the top-10 extracted sections ranked i + 1 and the refined analyses of the top 5 |
| Collection.ProcessCollection | process_collections.py:168-223 | a collection's output is its metadata with processed names, persona and job, and the lists assembled from the ranked pool |
| Collection.CollectionOutputShape | process_collections.py:194-220 | at most 10 extracted sections ranked 1..N, each naming a processed document with a non-empty title and page ≥ 1. At most 5 analyses, following the same documents and pages, each excerpt at most 303 characters |
| Collection.NoDocumentFound | process_collections.py:173-220 | a collection with no document found gives empty lists and metadata naming no document |

## Left out

- Opening PDFs and `page.get_text()` are not modelled: a document is given as its page texts, as `Missing`, or as `Unreadable`.
- An exception at any point of `extract_text_from_pdf` (lines 96-98) is modelled as `Unreadable`, which yields no sections. A failure part-way through a document is not distinguished from one at the start.
- Reading `challenge1b_input.json`, the `{}` result when it is missing, the defaults for persona and job (`"Unknown"`, `str(job_data)`), writing the output JSON, `main` and argument parsing are I/O glue and are not modelled.
- `processing_timestamp` is left out of `Metadata`, because it reads the clock.
- Console messages (`print`) are not modelled.
- The source adds `relevance_score` and `document` to shared section dictionaries in place. The model wraps sections in `Tagged` and `Scored` values instead, so aliasing between the dictionaries is not captured.
- Text.Lower: maps only ASCII letters, because the model treats case as ASCII. Python's Unicode case mapping is not captured.
- Text.IsTitleIffTitleCased: classifies only ASCII letters as cased. Python's Unicode title-case classes are not captured.
- Text.Decimal: page numbers are rendered with ASCII digits, and `isdigit` accepts only ASCII digits. Python also accepts other Unicode digits.
- Strings are sequences of `char` with no encoding. Whitespace for `strip()` is Python's `str.isspace` set, listed by code point.
