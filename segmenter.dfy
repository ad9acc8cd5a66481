/**
 * The section segmenter of `extract_text_from_pdf`: each page's text is cut
 * into lines, noise lines are dropped, and a small state machine (a current
 * title and a content buffer) turns the remaining lines into titled sections.
 * When a whole document yields nothing, a fallback makes one section per
 * non-blank page among its first three pages.
 *
 * A document is the sequence of its pages' texts; page `i` (0-based) is
 * reported as page `i + 1`.
 */
module Segmenter {
  import opened Text

  /** A titled span of one page's text. */
  datatype Section = Section(title: string, page: nat, content: string)

  /** A title together with the body lines that follow it on a page. */
  datatype Block = Block(title: string, body: seq<string>)

  /** Words that make a short line a header wherever they appear in it. */
  const HeaderKeywords: seq<string> := ["chapter", "section", "guide", "overview", "introduction"]

  /** A stripped line that survives the noise filter: longer than ten
      characters and not a bare number. */
  predicate Kept(line: string) {
    |line| > 10 && !IsDigits(line)
  }

  /** The header heuristic: shorter than 100 characters, and title-cased,
      upper-cased, or containing one of the header keywords in any case. */
  predicate IsHeader(line: string)
    ensures IsHeader(line) ==> 0 < |line| < 100
  {
    |line| < 100 &&
    (IsTitle(line) || IsUpper(line) || exists kw | kw in HeaderKeywords :: Contains(Lower(line), kw))
  }

  /** The title of a page's section when the page has no header. */
  function PageContentTitle(n: nat): string {
    "Page " + Decimal(n) + " Content"
  }

  /** The fallback title of a page whose first line is short. */
  function PageTitle(n: nat): string {
    "Page " + Decimal(n)
  }

  // ------------------------------------------------------- noise filter

  /** The stripped lines of `raw` that survive the noise filter, in order. */
  function KeptLines(raw: seq<string>): seq<string>
  {
    if raw == [] then []
    else
      var line := Strip(raw[|raw| - 1]);
      KeptLines(raw[..|raw| - 1]) + (if Kept(line) then [line] else [])
  }

  /** A line is among the kept lines exactly when it survives the noise
      filter and is the stripped form of some raw line. */
  lemma {:induction false} KeptLinesExactly(raw: seq<string>, line: string)
    ensures line in KeptLines(raw) <==> Kept(line) && exists j :: 0 <= j < |raw| && Strip(raw[j]) == line
  {
    if raw != [] {
      var init := raw[..|raw| - 1];
      KeptLinesExactly(init, line);
      if exists j :: 0 <= j < |raw| && Strip(raw[j]) == line {
        var j :| 0 <= j < |raw| && Strip(raw[j]) == line;
        if j < |init| {
          assert Strip(init[j]) == line;
        }
      }
      if exists j :: 0 <= j < |init| && Strip(init[j]) == line {
        var j :| 0 <= j < |init| && Strip(init[j]) == line;
        assert Strip(raw[j]) == line;
      }
    }
  }

  /** Lines 26-30: strip every line of the page and keep the meaningful ones. */
  method MeaningfulLines(text: string) returns (lines: seq<string>)
    ensures lines == KeptLines(Split(text, '\n'))
  {
    var raw := Split(text, '\n');
    lines := [];
    for i := 0 to |raw|
      invariant lines == KeptLines(raw[..i])
    {
      var line := Strip(raw[i]);
      if |line| > 10 && !IsDigits(line) {
        lines := lines + [line];
      }
      assert raw[..i + 1][..i] == raw[..i];
    }
    assert raw[..|raw|] == raw;
  }

  // ------------------------------------------------------- state machine

  /** The section a title and its buffer close into, if both are present. */
  function Close(title: string, buf: seq<string>, n: nat): seq<Section>
  {
    if title != "" && buf != [] then [Section(title, n, Join(buf, " "))] else []
  }

  /** The sections the state machine still emits from `lines` on page `n`,
      given the current title (`""` for none) and content buffer. */
  function Walk(lines: seq<string>, title: string, buf: seq<string>, n: nat): (r: seq<Section>)
    ensures |r| <= |lines| + 1
    ensures forall s :: s in r ==>
      s.page == n && (s.title == title || s.title in lines || s.title == PageContentTitle(n))
    decreases |lines|
  {
    if lines == [] then
      if title != "" && buf != [] then [Section(title, n, Join(buf, " "))]
      else if title == "" && buf != [] then [Section(PageContentTitle(n), n, Join(buf, " "))]
      else []
    else if IsHeader(lines[0]) then Close(title, buf, n) + Walk(lines[1..], lines[0], [], n)
    else Walk(lines[1..], title, buf + [lines[0]], n)
  }

  /** The sections the primary path makes of page `n` whose text is `text`. */
  function PageSections(text: string, n: nat): seq<Section>
  {
    Walk(KeptLines(Split(text, '\n')), "", [], n)
  }

  /** Lines 32-70: the header/content state machine over a page's kept lines. */
  method SegmentLines(lines: seq<string>, n: nat) returns (sections: seq<Section>)
    ensures sections == Walk(lines, "", [], n)
  {
    sections := [];
    var title := "";
    var content: seq<string> := [];
    for i := 0 to |lines|
      invariant sections + Walk(lines[i..], title, content, n) == Walk(lines, "", [], n)
    {
      var line := lines[i];
      assert lines[i..] == [line] + lines[i + 1..];
      if IsHeader(line) {
        if title != "" && content != [] {
          sections := sections + [Section(title, n, Join(content, " "))];
        }
        title := line;
        content := [];
      } else {
        content := content + [line];
      }
    }
    assert lines[|lines|..] == [];
    if title != "" && content != [] {
      sections := sections + [Section(title, n, Join(content, " "))];
    } else if title == "" && content != [] {
      sections := sections + [Section(PageContentTitle(n), n, Join(content, " "))];
    }
  }

  /** Lines 23-70 for one page: the noise filter, then the state machine when
      any line is left. */
  method SegmentPage(text: string, n: nat) returns (sections: seq<Section>)
    ensures sections == PageSections(text, n)
  {
    var lines := MeaningfulLines(text);
    sections := [];
    if lines != [] {
      sections := SegmentLines(lines, n);
    }
  }


  // ------------------------------------------------- block decomposition

  /** The number of lines before the first header of `lines`. */
  function BodyLength(lines: seq<string>): (k: nat)
    ensures k <= |lines|
    ensures k < |lines| ==> IsHeader(lines[k])
    ensures forall j :: 0 <= j < k ==> !IsHeader(lines[j])
    decreases |lines|
  {
    if lines == [] || IsHeader(lines[0]) then 0 else 1 + BodyLength(lines[1..])
  }

  /** Each header of `lines` (which starts with one) with the non-header lines
      up to the next header, for every header whose body is not empty. */
  function HeaderBlocks(lines: seq<string>): seq<Block>
    requires lines != [] ==> IsHeader(lines[0])
    decreases |lines|
  {
    if lines == [] then []
    else
      var k := BodyLength(lines[1..]);
      var body := lines[1..k + 1];
      (if body != [] then [Block(lines[0], body)] else []) + HeaderBlocks(lines[k + 1..])
  }

  /** A page's blocks stated without a state machine: with no header, all its
      lines under the page title; otherwise the lines before the first header
      are dropped and each header heads the lines up to the next one. */
  function PageBlocks(lines: seq<string>, n: nat): seq<Block>
  {
    var k := BodyLength(lines);
    if k == |lines| then (if lines == [] then [] else [Block(PageContentTitle(n), lines)])
    else HeaderBlocks(lines[k..])
  }

  /** Each block as a section of page `n`, its lines joined by single spaces. */
  function Render(blocks: seq<Block>, n: nat): seq<Section>
  {
    if blocks == [] then []
    else [Section(blocks[0].title, n, Join(blocks[0].body, " "))] + Render(blocks[1..], n)
  }

  lemma {:induction false} RenderAppend(a: seq<Block>, b: seq<Block>, n: nat)
    ensures Render(a + b, n) == Render(a, n) + Render(b, n)
    decreases |a|
  {
    if a != [] {
      RenderAppend(a[1..], b, n);
      var first := [Section(a[0].title, n, Join(a[0].body, " "))];
      assert (a + b)[0] == a[0];
      assert (a + b)[1..] == a[1..] + b;
      assert Render(a + b, n) == first + Render(a[1..] + b, n);
      assert Render(a, n) == first + Render(a[1..], n);
    } else {
      assert a + b == b;
    }
  }

  /** The body lines before the first header only join the buffer. */
  lemma {:induction false} WalkSkipsBody(lines: seq<string>, title: string, buf: seq<string>, n: nat)
    ensures var k := BodyLength(lines);
      Walk(lines, title, buf, n) == Walk(lines[k..], title, buf + lines[..k], n)
    decreases |lines|
  {
    if lines != [] && !IsHeader(lines[0]) {
      WalkSkipsBody(lines[1..], title, buf + [lines[0]], n);
      var k := BodyLength(lines);
      assert k == 1 + BodyLength(lines[1..]);
      assert Walk(lines, title, buf, n) == Walk(lines[1..], title, buf + [lines[0]], n);
      assert lines[1..][k - 1..] == lines[k..];
      assert buf + [lines[0]] + lines[1..][..k - 1] == buf + lines[..k];
    } else {
      assert lines[0..] == lines;
      assert buf + lines[..0] == buf;
    }
  }

  lemma {:induction false} WalkFromHeader(lines: seq<string>, title: string, buf: seq<string>, n: nat)
    requires lines != [] && IsHeader(lines[0])
    ensures Walk(lines, title, buf, n) == Close(title, buf, n) + Render(HeaderBlocks(lines), n)
    decreases |lines|
  {
    var h := lines[0];
    var rest := lines[1..];
    var k := BodyLength(rest);
    var body := lines[1..k + 1];
    WalkSkipsBody(rest, h, [], n);
    assert [] + rest[..k] == body;
    assert rest[k..] == lines[k + 1..];
    var first := if body != [] then [Block(h, body)] else [];
    assert Close(h, body, n) == Render(first, n);
    RenderAppend(first, HeaderBlocks(lines[k + 1..]), n);
    if k < |rest| {
      WalkFromHeader(rest[k..], h, body, n);
    }
  }

  /** The state machine emits exactly the rendered block decomposition. */
  lemma SegmentationIsBlockDecomposition(lines: seq<string>, n: nat)
    ensures Walk(lines, "", [], n) == Render(PageBlocks(lines, n), n)
  {
    var k := BodyLength(lines);
    WalkSkipsBody(lines, "", [], n);
    assert [] + lines[..k] == lines[..k];
    if k < |lines| {
      WalkFromHeader(lines[k..], "", lines[..k], n);
    } else {
      assert lines[..k] == lines;
    }
  }

  /** A block headed by a header line of `lines` whose body lines are
      non-header lines of `lines`. */
  ghost predicate HeaderBlockOf(b: Block, lines: seq<string>) {
    b.title in lines && IsHeader(b.title) && b.body != [] &&
    forall l :: l in b.body ==> l in lines && !IsHeader(l)
  }

  lemma {:induction false} HeaderBlocksWellFormed(lines: seq<string>)
    requires lines != [] ==> IsHeader(lines[0])
    ensures forall b :: b in HeaderBlocks(lines) ==> HeaderBlockOf(b, lines)
    decreases |lines|
  {
    if lines != [] {
      var k := BodyLength(lines[1..]);
      var tail := lines[k + 1..];
      HeaderBlocksWellFormed(tail);
      forall b | b in HeaderBlocks(tail) ensures HeaderBlockOf(b, lines) {
        assert HeaderBlockOf(b, tail);
        forall l | l in b.body ensures l in lines {
          assert l in tail;
        }
      }
      forall l | l in lines[1..k + 1] ensures l in lines && !IsHeader(l) {
        var j :| 0 <= j < k && lines[1..k + 1][j] == l;
        assert lines[1..][j] == l;
      }
    }
  }

  /** Every block of a page is either a header block of its lines or, when
      the page has no header at all, the single block of all its lines under
      the page title. */
  lemma PageBlocksWellFormed(lines: seq<string>, n: nat)
    ensures forall b :: b in PageBlocks(lines, n) ==>
      HeaderBlockOf(b, lines) ||
      (b == Block(PageContentTitle(n), lines) && lines != [] && forall l :: l in lines ==> !IsHeader(l))
  {
    var k := BodyLength(lines);
    if k < |lines| {
      HeaderBlocksWellFormed(lines[k..]);
      forall b | b in PageBlocks(lines, n) ensures HeaderBlockOf(b, lines) {
        assert HeaderBlockOf(b, lines[k..]);
      }
    } else {
      forall l | l in lines ensures !IsHeader(l) {
        var j :| 0 <= j < |lines| && lines[j] == l;
      }
    }
  }

  lemma {:induction false} RenderedFrom(blocks: seq<Block>, n: nat, i: nat)
    requires i < |Render(blocks, n)|
    ensures |Render(blocks, n)| == |blocks|
    ensures Render(blocks, n)[i] == Section(blocks[i].title, n, Join(blocks[i].body, " "))
    decreases |blocks|
  {
    if i > 0 {
      RenderedFrom(blocks[1..], n, i - 1);
    } else if |blocks| > 1 {
      RenderedFrom(blocks[1..], n, 0);
    }
  }

  lemma {:induction false} JoinNotEmpty(parts: seq<string>, sep: string)
    requires parts != [] && parts[0] != ""
    ensures Join(parts, sep) != ""
  {
    if |parts| > 1 {
      assert Join(parts, sep) == parts[0] + sep + Join(parts[1..], sep);
    }
  }

  /** Every section of page `n` is made of kept lines only: its title is a
      kept header line or the page title, its content is a non-empty join of
      kept non-header lines, and it is tagged with page `n`. */
  lemma {:induction false} PageSectionsFromKeptLines(text: string, n: nat)
    ensures var lines := KeptLines(Split(text, '\n'));
      var blocks := PageBlocks(lines, n);
      && PageSections(text, n) == Render(blocks, n)
      && forall b :: b in blocks ==>
           && (b.title == PageContentTitle(n) || (Kept(b.title) && IsHeader(b.title)))
           && b.body != []
           && forall l :: l in b.body ==> Kept(l)
    ensures forall s :: s in PageSections(text, n) ==>
      s.page == n && s.title != "" && s.content != "" &&
      (s.title == PageContentTitle(n) || (Kept(s.title) && IsHeader(s.title)))
  {
    var raw := Split(text, '\n');
    var lines := KeptLines(raw);
    var blocks := PageBlocks(lines, n);
    SegmentationIsBlockDecomposition(lines, n);
    PageBlocksWellFormed(lines, n);
    forall l | l in lines ensures Kept(l) {
      KeptLinesExactly(raw, l);
    }
    forall s | s in PageSections(text, n)
      ensures s.page == n && s.title != "" && s.content != ""
      ensures s.title == PageContentTitle(n) || (Kept(s.title) && IsHeader(s.title))
    {
      var i :| 0 <= i < |PageSections(text, n)| && PageSections(text, n)[i] == s;
      RenderedFrom(blocks, n, i);
      var b := blocks[i];
      assert b in blocks;
      assert b.body[0] in b.body;
      JoinNotEmpty(b.body, " ");
    }
  }

  /** A page whose kept lines hold no header yields exactly one section,
      titled `Page n Content`, whose content is all those lines joined by spaces. */
  lemma NoHeaderPage(text: string, n: nat)
    requires KeptLines(Split(text, '\n')) != []
    requires forall l :: l in KeptLines(Split(text, '\n')) ==> !IsHeader(l)
    ensures PageSections(text, n) ==
      [Section(PageContentTitle(n), n, Join(KeptLines(Split(text, '\n')), " "))]
  {
    var lines := KeptLines(Split(text, '\n'));
    var k := BodyLength(lines);
    assert forall j :: 0 <= j < |lines| ==> !IsHeader(lines[j]);
    SegmentationIsBlockDecomposition(lines, n);
    assert Render([Block(PageContentTitle(n), lines)], n) ==
      [Section(PageContentTitle(n), n, Join(lines, " "))];
  }

  /** Body lines before a page's first header are discarded. */
  lemma LeadingBodyDiscarded(pre: seq<string>, rest: seq<string>, n: nat)
    requires forall l :: l in pre ==> !IsHeader(l)
    requires rest != [] && IsHeader(rest[0])
    ensures Walk(pre + rest, "", [], n) == Walk(rest, "", [], n)
  {
    var lines := pre + rest;
    var k := BodyLength(lines);
    assert forall j :: 0 <= j < |pre| ==> !IsHeader(lines[j]);
    assert IsHeader(lines[|pre|]);
    assert k == |pre|;
    WalkSkipsBody(lines, "", [], n);
    assert lines[k..] == rest;
    assert [] + lines[..k] == pre;
  }

  /** A header followed directly by another header opens no section: its
      title is replaced with an empty buffer. */
  lemma HeaderThenHeader(h1: string, h2: string, rest: seq<string>, title: string, buf: seq<string>, n: nat)
    requires IsHeader(h1) && IsHeader(h2)
    ensures Walk([h1, h2] + rest, title, buf, n) == Close(title, buf, n) + Walk([h2] + rest, "", [], n)
  {
    assert ([h1, h2] + rest)[1..] == [h2] + rest;
    assert ([h2] + rest)[1..] == rest;
  }

  /** A page whose text is only the page number `1` yields no section. */
  lemma PageNumberOnlyPage(n: nat)
    ensures PageSections("1", n) == []
  {
    assert "1"[1..] == "";
    assert Split("", '\n') == [""];
    assert Split("1", '\n') == [['1'] + ""] + [""][1..];
    assert ['1'] + "" == "1" && [""][1..] == [];
    assert Split("1", '\n') == ["1"];
    assert Strip("1") == "1";
    assert KeptLines(["1"]) == [];
  }

  // ----------------------------------------------- whole-document fallback

  /** `[line.strip() for line in raw if line.strip()]`. */
  function NonBlankLines(raw: seq<string>): seq<string>
  {
    if raw == [] then []
    else
      var line := Strip(raw[0]);
      (if line != "" then [line] else []) + NonBlankLines(raw[1..])
  }

  /** Lines 80-91 for page `n`: none or one section. */
  function FallbackSection(text: string, n: nat): (r: seq<Section>)
    ensures |r| <= 1
    ensures r != [] ==>
      var lines := NonBlankLines(Split(text, '\n'));
      && lines != [] && r[0].page == n
      && r[0].content <= Join(lines[1..], " ") && |r[0].content| == Min(500, |Join(lines[1..], " ")|)
      && (|lines[0]| > 10 ==> r[0].title <= lines[0] && |r[0].title| == Min(100, |lines[0]|))
      && (|lines[0]| <= 10 ==> r[0].title == PageTitle(n))
  {
    if Strip(text) == "" then []
    else
      var lines := NonBlankLines(Split(text, '\n'));
      if lines == [] then []
      else
        var title := if |lines[0]| > 10 then Take(lines[0], 100) else PageTitle(n);
        [Section(title, n, Take(Join(lines[1..], " "), 500))]
  }

  /** The fallback sections of `pages`, numbered from 1. */
  function FallbackSections(pages: seq<string>): seq<Section>
  {
    if pages == [] then []
    else FallbackSections(pages[..|pages| - 1]) + FallbackSection(pages[|pages| - 1], |pages|)
  }

  /** The number of pages whose text is not blank. */
  function NonBlankPages(pages: seq<string>): nat
  {
    if pages == [] then 0
    else NonBlankPages(pages[..|pages| - 1]) + (if Strip(pages[|pages| - 1]) != "" then 1 else 0)
  }

  lemma {:induction false} NonBlankLinesFound(raw: seq<string>, j: nat)
    requires j < |raw| && Strip(raw[j]) != ""
    ensures NonBlankLines(raw) != []
    decreases |raw|
  {
    if j > 0 && Strip(raw[0]) == "" {
      NonBlankLinesFound(raw[1..], j - 1);
    }
  }

  /** A page whose text is not blank always has a first non-blank line, so
      the `if lines` test of the fallback always passes. */
  lemma NonBlankTextHasLines(text: string)
    requires Strip(text) != ""
    ensures NonBlankLines(Split(text, '\n')) != []
  {
    StripBlank(text);
    var i :| 0 <= i < |text| && !IsSpace(text[i]);
    SplitCovers(text, '\n', i);
    var parts := Split(text, '\n');
    var j :| 0 <= j < |parts| && text[i] in parts[j];
    StripBlank(parts[j]);
    var m :| 0 <= m < |parts[j]| && parts[j][m] == text[i];
    assert !IsBlank(parts[j]);
    NonBlankLinesFound(parts, j);
  }

  lemma FallbackSectionShape(text: string, n: nat)
    ensures |FallbackSection(text, n)| == if Strip(text) != "" then 1 else 0
    ensures FallbackSection(text, n) != [] ==>
      var s := FallbackSection(text, n)[0];
      s.page == n && |s.content| <= 500 && (s.title == PageTitle(n) || 10 < |s.title| <= 100)
  {
    if Strip(text) != "" {
      NonBlankTextHasLines(text);
      var lines := NonBlankLines(Split(text, '\n'));
      assert |lines[0]| > 10 ==> |Take(lines[0], 100)| > 10;
    }
  }

  /** Each fallback section names a non-blank page and is that page's
      fallback section. */
  lemma {:induction false} FallbackSectionsOfPages(pages: seq<string>)
    ensures forall s :: s in FallbackSections(pages) ==>
      1 <= s.page <= |pages| && Strip(pages[s.page - 1]) != "" &&
      FallbackSection(pages[s.page - 1], s.page) == [s]
  {
    if pages != [] {
      var init := pages[..|pages| - 1];
      var last := pages[|pages| - 1];
      FallbackSectionsOfPages(init);
      var b := FallbackSection(last, |pages|);
      assert FallbackSections(pages) == FallbackSections(init) + b;
      forall s | s in FallbackSections(pages)
        ensures 1 <= s.page <= |pages| && Strip(pages[s.page - 1]) != ""
        ensures FallbackSection(pages[s.page - 1], s.page) == [s]
      {
        if s in FallbackSections(init) {
          assert pages[s.page - 1] == init[s.page - 1];
        } else {
          assert b == [s] && s.page == |pages| && Strip(last) != "";
        }
      }
    }
  }

  /** Fallback sections come in strictly increasing page order. */
  lemma {:induction false} FallbackInPageOrder(pages: seq<string>)
    ensures forall i, j :: 0 <= i < j < |FallbackSections(pages)| ==>
      FallbackSections(pages)[i].page < FallbackSections(pages)[j].page
  {
    if pages != [] {
      var init := pages[..|pages| - 1];
      FallbackInPageOrder(init);
      FallbackSectionsOfPages(init);
      var a := FallbackSections(init);
      var b := FallbackSection(pages[|pages| - 1], |pages|);
      var all := FallbackSections(pages);
      assert all == a + b;
      forall i, j | 0 <= i < j < |all| ensures all[i].page < all[j].page {
        if j >= |a| {
          assert all[j] == b[j - |a|] && j - |a| == 0 && all[i] == a[i] && a[i] in a;
        } else {
          assert all[i] == a[i] && all[j] == a[j];
        }
      }
    }
  }

  /** One fallback section for each non-blank page. */
  lemma {:induction false} FallbackCount(pages: seq<string>)
    ensures |FallbackSections(pages)| == NonBlankPages(pages)
  {
    if pages != [] {
      FallbackCount(pages[..|pages| - 1]);
      FallbackSectionShape(pages[|pages| - 1], |pages|);
    }
  }

  /** Exactly one fallback section per non-blank page, in page order: there
      are as many sections as non-blank pages, their page numbers strictly
      increase, and each is the fallback section of the non-blank page it
      names, titled either `Page n` or with a first line of 11 to 100
      characters, and with at most 500 characters of content. */
  lemma {:induction false} FallbackOnePerNonBlankPage(pages: seq<string>)
    ensures |FallbackSections(pages)| == NonBlankPages(pages)
    ensures forall i, j :: 0 <= i < j < |FallbackSections(pages)| ==>
      FallbackSections(pages)[i].page < FallbackSections(pages)[j].page
    ensures forall s :: s in FallbackSections(pages) ==>
      1 <= s.page <= |pages| && Strip(pages[s.page - 1]) != "" &&
      FallbackSection(pages[s.page - 1], s.page) == [s] && |s.content| <= 500 &&
      (s.title == PageTitle(s.page) || 10 < |s.title| <= 100)
  {
    FallbackCount(pages);
    FallbackInPageOrder(pages);
    FallbackSectionsOfPages(pages);
    forall s | s in FallbackSections(pages)
      ensures |s.content| <= 500 && (s.title == PageTitle(s.page) || 10 < |s.title| <= 100)
    {
      FallbackSectionShape(pages[s.page - 1], s.page);
      assert FallbackSection(pages[s.page - 1], s.page)[0] == s;
    }
  }

  /** Lines 75-91: one section per non-blank page among the first three. */
  method WholeDocumentFallback(pages: seq<string>) returns (sections: seq<Section>)
    ensures sections == FallbackSections(pages[..Min(3, |pages|)])
  {
    sections := [];
    var count := Min(3, |pages|);
    for i := 0 to count
      invariant sections == FallbackSections(pages[..i])
    {
      var text := pages[i];
      assert pages[..i + 1][..i] == pages[..i];
      if Strip(text) != "" {
        var lines := NonBlankLines(Split(text, '\n'));
        if lines != [] {
          var title := if |lines[0]| > 10 then Take(lines[0], 100) else PageTitle(i + 1);
          var content := Take(Join(lines[1..], " "), 500);
          sections := sections + [Section(title, i + 1, content)];
        }
      }
    }
  }

  // ------------------------------------------------------- whole document

  /** The primary path over every page of a document. */
  function PrimarySections(pages: seq<string>): seq<Section>
  {
    if pages == [] then []
    else PrimarySections(pages[..|pages| - 1]) + PageSections(pages[|pages| - 1], |pages|)
  }

  /** What `extract_text_from_pdf` returns for a readable document. */
  function DocumentSections(pages: seq<string>): seq<Section>
  {
    var primary := PrimarySections(pages);
    if primary != [] then primary else FallbackSections(pages[..Min(3, |pages|)])
  }

  /** Lines 18-94: segment every page, then fall back to whole pages when
      nothing was found. */
  method ExtractSections(pages: seq<string>) returns (sections: seq<Section>)
    ensures sections == DocumentSections(pages)
  {
    sections := [];
    for i := 0 to |pages|
      invariant sections == PrimarySections(pages[..i])
    {
      var pageSections := SegmentPage(pages[i], i + 1);
      assert pages[..i + 1][..i] == pages[..i];
      sections := sections + pageSections;
    }
    assert pages[..|pages|] == pages;
    if sections == [] {
      sections := WholeDocumentFallback(pages);
    }
  }

  lemma {:induction false} PrimarySectionsWellFormed(pages: seq<string>)
    ensures forall s :: s in PrimarySections(pages) ==> s.title != "" && 1 <= s.page <= |pages|
  {
    if pages != [] {
      PrimarySectionsWellFormed(pages[..|pages| - 1]);
      PageSectionsFromKeptLines(pages[|pages| - 1], |pages|);
    }
  }

  /** Every section of a document has a non-empty title and the number of a
      page of that document; the fallback runs only when the primary path
      found nothing, and then yields one section per non-blank page among the
      first three. */
  lemma DocumentSectionsWellFormed(pages: seq<string>)
    ensures forall s :: s in DocumentSections(pages) ==> s.title != "" && 1 <= s.page <= |pages|
    ensures PrimarySections(pages) == [] ==>
      var d := DocumentSections(pages);
      && |d| == NonBlankPages(pages[..Min(3, |pages|)])
      && (forall i, j :: 0 <= i < j < |d| ==> d[i].page < d[j].page)
      && (forall s :: s in d ==> s.page <= 3 && FallbackSection(pages[s.page - 1], s.page) == [s])
  {
    PrimarySectionsWellFormed(pages);
    var first := pages[..Min(3, |pages|)];
    FallbackOnePerNonBlankPage(first);
    forall s | s in FallbackSections(first)
      ensures s.page <= 3 && FallbackSection(pages[s.page - 1], s.page) == [s]
    {
      assert first[s.page - 1] == pages[s.page - 1];
    }
  }

  /** A document whose only page holds the page number `1` produces nothing on
      the primary path, so the fallback makes one section titled `Page 1`
      with empty content. */
  lemma PageNumberOnlyDocument()
    ensures DocumentSections(["1"]) == [Section("Page 1", 1, "")]
  {
    PageNumberOnlyPage(1);
    assert "1"[1..] == "";
    assert ["1"][..0] == [];
    assert PrimarySections(["1"]) == [];
    assert ["1"][..Min(3, 1)] == ["1"];
    assert Split("", '\n') == [""];
    assert Split("1", '\n') == [['1'] + ""] + [""][1..];
    assert ['1'] + "" == "1" && [""][1..] == [];
    assert Split("1", '\n') == ["1"];
    assert Strip("1") == "1";
    assert ["1"][1..] == [];
    assert NonBlankLines(["1"]) == ["1"];
    assert Decimal(1) == "1";
    assert PageTitle(1) == "Page 1";
    assert FallbackSection("1", 1) == [Section("Page 1", 1, "")];
    assert FallbackSections(["1"]) == FallbackSections([]) + FallbackSection("1", 1);
  }
}
