/** The parser back end (backend/book_parser.py): the dispatch on the file's
    suffix, the HTML-to-text reduction used for EPUB documents, and the loops
    that assemble pages and chapters from the text the PDF, EPUB and FB2
    libraries extract. The libraries themselves are inputs: what they extract
    from a file is given as a `LibraryView`. */
module BookParser {
  import opened Wrappers
  import opened Text
  import Validation

  // ------------------------------------------------------------------------
  // Dispatch

  datatype Format = Pdf | Epub | Fb2 | Txt

  /** The suffix each format is recognised by. */
  function Extension(f: Format): string
  {
    match f
    case Pdf => ".pdf"
    case Epub => ".epub"
    case Fb2 => ".fb2"
    case Txt => ".txt"
  }

  /** `Path.suffix` of a file name: from the last dot on, provided that dot
      is neither the first nor the last character; otherwise empty. */
  function Suffix(name: string): (r: string)
    ensures r == "" || (|r| >= 2 && r[0] == '.' && '.' !in r[1..] && |r| <= |name| && r == name[|name| - |r|..])
    ensures r != "" <==> 0 < LastIndexOf(name, '.') < |name| - 1
    ensures r != "" ==> r == name[LastIndexOf(name, '.')..]
  {
    var i := LastIndexOf(name, '.');
    if 0 < i < |name| - 1 then name[i..] else ""
  }

  /** `parse_book`'s test of `file_path.suffix.lower()`: one of the four
      formats, or the `ValueError` carrying the lower-cased suffix. */
  function FormatOf(name: string): Result<Format, string>
  {
    FormatOfSuffix(ToLower(Suffix(name)))
  }

  /** The `if`/`elif` chain on the lower-cased suffix. */
  function FormatOfSuffix(ext: string): Result<Format, string>
  {
    if ext == ".pdf" then Ok(Pdf)
    else if ext == ".epub" then Ok(Epub)
    else if ext == ".fb2" then Ok(Fb2)
    else if ext == ".txt" then Ok(Txt)
    else Err(ext)
  }

  /** A format is chosen exactly when the suffix is its extension, and any
      other suffix, the empty one included, is an error that names it. */
  lemma FormatOfRoutes(ext: string, f: Format)
    ensures FormatOfSuffix(ext) == Ok(f) <==> ext == Extension(f)
    ensures FormatOfSuffix(ext).Err? ==> FormatOfSuffix(ext).error == ext && ext != Extension(f)
  {
    match f
    case Pdf =>
    case Epub => assert ".epub" != ".pdf";
    case Fb2 => assert ".fb2" != ".pdf" && ".fb2" != ".epub";
    case Txt => assert ".txt" != ".pdf" && ".txt" != ".epub" && ".txt" != ".fb2";
  }

  /** The suffix test is case-insensitive. */
  lemma FormatIgnoresCase()
    ensures FormatOf("Tolstoy.FB2") == Ok(Fb2)
  {
    Validation.LastIndexOfIs("Tolstoy.FB2", '.', 7);
    assert Suffix("Tolstoy.FB2") == ".FB2";
    var lower := ToLower(".FB2");
    assert lower == ".fb2" by {
      forall i | 0 <= i < 4 ensures lower[i] == ".fb2"[i] {}
    }
  }

  /** A name made only of a dot and an extension has no suffix, so it is
      refused with an empty suffix in the message. */
  lemma DotNameHasNoFormat()
    ensures FormatOf(".pdf") == Err("")
  {
    Validation.LastIndexOfIs(".pdf", '.', 0);
    assert Suffix(".pdf") == "";
  }

  /** Every name the back end parses passes the page's own check before the
      upload. */
  lemma BackendAcceptedIsFrontendAccepted(name: string)
    requires FormatOf(name).Ok?
    ensures Validation.IsSupportedFile(name)
  {
    var f := FormatOf(name).value;
    FormatOfRoutes(ToLower(Suffix(name)), f);
    ExtensionAllowed(f);
    SuffixIsFileExtension(name);
  }

  /** Conversely, a name the page accepts is parsed by the back end as soon as
      its last dot is not its first character. */
  lemma FrontendAcceptedIsBackendAccepted(name: string)
    requires Validation.IsSupportedFile(name)
    requires LastIndexOf(name, '.') > 0
    ensures FormatOf(name).Ok?
  {
    var i := LastIndexOf(name, '.');
    var ext := Validation.FileExtension(name);
    assert ext == ToLower(name)[i..];
    assert ext == ".pdf" || ext == ".epub" || ext == ".fb2" || ext == ".txt";
    assert i < |name| - 1;
    ToLowerSuffix(name, i);
    assert ToLower(Suffix(name)) == ext;
  }

  /** Every format the back end parses has an extension the page allows. */
  lemma ExtensionAllowed(f: Format)
    ensures Extension(f) in Validation.AllowedFormats
  {
    assert Extension(f) == Validation.AllowedFormats[
      match f case Pdf => 0 case Epub => 1 case Fb2 => 2 case Txt => 3];
  }

  /** When the file name has a suffix, the page's extension is that suffix,
      lower-cased. */
  lemma SuffixIsFileExtension(name: string)
    requires Suffix(name) != ""
    ensures Validation.FileExtension(name) == ToLower(Suffix(name))
  {
    var i := LastIndexOf(name, '.');
    assert 0 < i < |name| - 1;
    ToLowerSuffix(name, i);
  }

  /** The converse fails: the page accepts a file named just `.pdf` (its
      last dot is its first character), and the back end then finds no
      suffix and refuses it. */
  lemma DotNameAcceptedOnlyByFrontend()
    ensures Validation.IsSupportedFile(".pdf")
    ensures FormatOf(".pdf").Err?
  {
    Validation.LastIndexOfIs(".pdf", '.', 0);
    var lower := ToLower(".pdf");
    assert lower == ".pdf" by {
      forall i | 0 <= i < 4 ensures lower[i] == ".pdf"[i] {}
    }
    assert Validation.FileExtension(".pdf") == Validation.AllowedFormats[0];
    assert Suffix(".pdf") == "";
  }

  // ------------------------------------------------------------------------
  // What the libraries extract, and what parse_book returns

  /** One item of an EPUB container: whether it is a document, and its
      content decoded as text. */
  datatype EpubItem = EpubItem(isDocument: bool, content: string)

  /** The extraction libraries' view of the uploaded file, per format: the
      `extract_text()` of each PDF page, the EPUB items, for each FB2 `body`
      the `.text` of each of its `p` elements (absent when the element has
      none), and the TXT file's content. */
  datatype LibraryView = LibraryView(
    pdfPageTexts: seq<string>,
    epubItems: seq<EpubItem>,
    fb2Bodies: seq<seq<Option<string>>>,
    txtContent: string)

  /** A list of pages/chapters (PDF, EPUB, FB2) or one string (TXT). */
  datatype Parsed = PageList(pages: seq<string>) | WholeText(text: string)

  /** `parse_book`. */
  function ParseBook(name: string, lib: LibraryView): (r: Result<Parsed, string>)
    ensures r.Err? <==> FormatOf(name).Err?
    ensures FormatOf(name) == Ok(Txt) ==> r == Ok(WholeText(lib.txtContent))
    ensures FormatOf(name) == Ok(Pdf) ==> r == Ok(PageList(KeepStripped(lib.pdfPageTexts)))
    ensures FormatOf(name) == Ok(Epub) ==> r == Ok(PageList(EpubChapters(lib.epubItems)))
    ensures FormatOf(name) == Ok(Fb2) ==> r == Ok(PageList(Fb2Chapters(lib.fb2Bodies)))
    ensures FormatOf(name) == Ok(Pdf) || FormatOf(name) == Ok(Epub) ==>
      r.Ok? && r.value.PageList? && NonBlankStripped(r.value.pages)
  {
    match FormatOf(name)
    case Err(ext) => Err(ext)
    case Ok(Pdf) => Ok(PageList(KeepStripped(lib.pdfPageTexts)))
    case Ok(Epub) => Ok(PageList(EpubChapters(lib.epubItems)))
    case Ok(Fb2) => Ok(PageList(Fb2Chapters(lib.fb2Bodies)))
    case Ok(Txt) => Ok(WholeText(lib.txtContent))
  }

  // ------------------------------------------------------------------------
  // PDF pages: keep the stripped texts that are not blank

  /** Every entry is non-empty and has no whitespace at either end. */
  predicate NonBlankStripped(pages: seq<string>) {
    forall k :: 0 <= k < |pages| ==> pages[k] != "" && Unpadded(pages[k], IsPySpace)
  }

  /** The stripped texts that are non-empty after stripping, in order. */
  function KeepStripped(texts: seq<string>): (r: seq<string>)
    ensures |r| <= |texts|
    ensures NonBlankStripped(r)
  {
    if |texts| == 0 then []
    else
      var t := Strip(texts[|texts| - 1], IsPySpace);
      KeepStripped(texts[..|texts| - 1]) + (if t == "" then [] else [t])
  }

  /** Keeping distributes over concatenation: the kept texts of two runs of
      pages are those of the first followed by those of the second. */
  lemma {:induction false} KeepStrippedAppend(a: seq<string>, b: seq<string>)
    ensures KeepStripped(a + b) == KeepStripped(a) + KeepStripped(b)
    decreases |b|
  {
    if |b| == 0 {
      assert a + b == a;
    } else {
      var b' := b[..|b| - 1];
      assert (a + b)[..|a + b| - 1] == a + b';
      assert (a + b)[|a + b| - 1] == b[|b| - 1];
      KeepStrippedAppend(a, b');
      KeepStrippedLast(a + b);
      KeepStrippedLast(b);
    }
  }

  /** A single text is kept, stripped, exactly when it is not blank. */
  lemma KeepStrippedOne(t: string)
    ensures KeepStripped([t]) == if AllSpace(t, IsPySpace) then [] else [Strip(t, IsPySpace)]
  {
    assert [t][..0] == [];
  }

  /** The last text is kept, stripped, after the kept texts before it,
      unless it strips to nothing. */
  lemma KeepStrippedLast(texts: seq<string>)
    requires |texts| > 0
    ensures var t := Strip(texts[|texts| - 1], IsPySpace);
      KeepStripped(texts) == KeepStripped(texts[..|texts| - 1]) + (if t == "" then [] else [t])
  {
  }

  /** When no text strips to nothing, every text is kept, stripped, in its
      place. */
  lemma {:induction false} KeepStrippedAllKept(texts: seq<string>)
    requires forall i :: 0 <= i < |texts| ==> Strip(texts[i], IsPySpace) != ""
    ensures |KeepStripped(texts)| == |texts|
    ensures forall i :: 0 <= i < |texts| ==> KeepStripped(texts)[i] == Strip(texts[i], IsPySpace)
    decreases |texts|
  {
    if |texts| > 0 {
      var init := texts[..|texts| - 1];
      forall i | 0 <= i < |init| ensures Strip(init[i], IsPySpace) != "" {
        assert init[i] == texts[i];
      }
      KeepStrippedAllKept(init);
      KeepStrippedLast(texts);
      var r := KeepStripped(init);
      var t := Strip(texts[|texts| - 1], IsPySpace);
      forall i | 0 <= i < |texts| ensures (r + [t])[i] == Strip(texts[i], IsPySpace) {
        if i < |init| {
          assert init[i] == texts[i];
        }
      }
    }
  }

  /** When every text strips to nothing, nothing is kept. */
  lemma {:induction false} KeepStrippedNoneKept(texts: seq<string>)
    requires forall i :: 0 <= i < |texts| ==> Strip(texts[i], IsPySpace) == ""
    ensures KeepStripped(texts) == []
    decreases |texts|
  {
    if |texts| > 0 {
      var init := texts[..|texts| - 1];
      forall i | 0 <= i < |init| ensures Strip(init[i], IsPySpace) == "" {
        assert init[i] == texts[i];
      }
      KeepStrippedNoneKept(init);
      KeepStrippedLast(texts);
    }
  }

  /** `_parse_pdf` over the extracted page texts. */
  method ParsePdf(pageTexts: seq<string>) returns (pages: seq<string>)
    ensures pages == KeepStripped(pageTexts)
  {
    pages := [];
    var n := 0;
    while n < |pageTexts|
      invariant 0 <= n <= |pageTexts|
      invariant pages == KeepStripped(pageTexts[..n])
    {
      var text := Strip(pageTexts[n], IsPySpace);
      assert pageTexts[..n + 1][..n] == pageTexts[..n];
      assert KeepStripped(pageTexts[..n + 1])
        == KeepStripped(pageTexts[..n]) + (if text == "" then [] else [text]);
      if text != "" {
        pages := pages + [text];
      }
      n := n + 1;
    }
    assert pageTexts[..n] == pageTexts;
  }

  // ------------------------------------------------------------------------
  // EPUB chapters

  /** The texts extracted from the document items, in order. */
  function DocumentTexts(items: seq<EpubItem>): (r: seq<string>)
    ensures |r| <= |items|
    ensures forall k :: 0 <= k < |r| ==> Unpadded(r[k], IsPySpace)
  {
    if |items| == 0 then []
    else
      var item := items[|items| - 1];
      DocumentTexts(items[..|items| - 1])
        + (if item.isDocument then [ExtractTextFromHtml(item.content)] else [])
  }

  /** Items are read in order: the texts of two runs of items are those of
      the first followed by those of the second. */
  lemma {:induction false} DocumentTextsAppend(a: seq<EpubItem>, b: seq<EpubItem>)
    ensures DocumentTexts(a + b) == DocumentTexts(a) + DocumentTexts(b)
    decreases |b|
  {
    if |b| == 0 {
      assert a + b == a;
    } else {
      var b' := b[..|b| - 1];
      assert (a + b)[..|a + b| - 1] == a + b';
      assert (a + b)[|a + b| - 1] == b[|b| - 1];
      DocumentTextsAppend(a, b');
    }
  }

  /** A document item gives its extracted text; any other item gives
      nothing. */
  lemma DocumentTextsOne(item: EpubItem)
    ensures DocumentTexts([item]) == if item.isDocument then [ExtractTextFromHtml(item.content)] else []
  {
    assert [item][..0] == [];
  }

  /** The chapters `_parse_epub` keeps: the extracted texts of the document
      items that are not blank, stripped once more, in order. */
  function EpubChapters(items: seq<EpubItem>): (r: seq<string>)
    ensures NonBlankStripped(r)
  {
    KeepStripped(DocumentTexts(items))
  }

  /** The second strip changes nothing: every EPUB chapter is, as it is, one
      of the texts extracted from the documents. */
  lemma EpubChaptersAreExtracts(items: seq<EpubItem>)
    ensures forall c :: c in EpubChapters(items) ==> c in DocumentTexts(items)
  {
    KeepStrippedOfUnpadded(DocumentTexts(items));
  }

  /** Texts that are already stripped are kept as they are. */
  lemma {:induction false} KeepStrippedOfUnpadded(texts: seq<string>)
    requires forall k :: 0 <= k < |texts| ==> Unpadded(texts[k], IsPySpace)
    ensures forall c :: c in KeepStripped(texts) ==> c in texts
    decreases |texts|
  {
    if |texts| > 0 {
      var n := |texts| - 1;
      var init := texts[..n];
      assert forall k :: 0 <= k < |init| ==> init[k] == texts[k];
      KeepStrippedOfUnpadded(init);
      StripUnpadded(texts[n], IsPySpace);
      KeepStrippedLast(texts);
      var last := Strip(texts[n], IsPySpace);
      assert last == texts[n];
      forall c | c in KeepStripped(texts) ensures c in texts {
        if c in KeepStripped(init) {
          var k :| 0 <= k < |init| && init[k] == c;
          assert texts[k] == c;
        } else {
          assert c == last;
        }
      }
    }
  }

  /** `_parse_epub` over the container's items. */
  method ParseEpub(items: seq<EpubItem>) returns (chapters: seq<string>)
    ensures chapters == EpubChapters(items)
  {
    chapters := [];
    var n := 0;
    while n < |items|
      invariant 0 <= n <= |items|
      invariant chapters == EpubChapters(items[..n])
    {
      var item := items[n];
      assert items[..n + 1][..n] == items[..n];
      if item.isDocument {
        var text := ExtractTextFromHtml(item.content);
        assert DocumentTexts(items[..n + 1]) == DocumentTexts(items[..n]) + [text];
        KeepStrippedAppend(DocumentTexts(items[..n]), [text]);
        KeepStrippedOne(text);
        if Strip(text, IsPySpace) != "" {
          chapters := chapters + [Strip(text, IsPySpace)];
        }
      } else {
        assert DocumentTexts(items[..n + 1]) == DocumentTexts(items[..n]);
      }
      n := n + 1;
    }
    assert items[..n] == items;
  }

  // ------------------------------------------------------------------------
  // FB2 chapters

  /** `if elem.text:` — present and non-empty. */
  predicate HasText(t: Option<string>) {
    t.Some? && t.value != ""
  }

  /** The stripped texts of the paragraphs that have text, in order; a text
      made only of whitespace is kept, as the empty string. */
  function ParagraphTexts(ps: seq<Option<string>>): (r: seq<string>)
    ensures |r| <= |ps|
  {
    if |ps| == 0 then []
    else
      var t := ps[|ps| - 1];
      ParagraphTexts(ps[..|ps| - 1]) + (if HasText(t) then [Strip(t.value, IsPySpace)] else [])
  }

  /** Paragraphs are read in order: the texts of two runs of paragraphs are
      those of the first followed by those of the second. */
  lemma {:induction false} ParagraphTextsAppend(a: seq<Option<string>>, b: seq<Option<string>>)
    ensures ParagraphTexts(a + b) == ParagraphTexts(a) + ParagraphTexts(b)
    decreases |b|
  {
    if |b| == 0 {
      assert a + b == a;
    } else {
      var b' := b[..|b| - 1];
      assert (a + b)[..|a + b| - 1] == a + b';
      assert (a + b)[|a + b| - 1] == b[|b| - 1];
      ParagraphTextsAppend(a, b');
    }
  }

  /** A paragraph with text gives that text stripped; one without gives
      nothing. */
  lemma ParagraphTextsOne(p: Option<string>)
    ensures ParagraphTexts([p]) == if HasText(p) then [Strip(p.value, IsPySpace)] else []
  {
    assert [p][..0] == [];
  }

  /** The chapters `_parse_fb2` produces: per body, in order, its paragraph
      texts joined with single spaces, for the bodies with any. */
  function Fb2Chapters(bodies: seq<seq<Option<string>>>): (r: seq<string>)
    ensures |r| <= |bodies|
  {
    if |bodies| == 0 then []
    else
      var texts := ParagraphTexts(bodies[|bodies| - 1]);
      Fb2Chapters(bodies[..|bodies| - 1]) + (if |texts| > 0 then [Join(texts, ' ')] else [])
  }

  /** A body contributes a chapter exactly when one of its paragraphs has
      text. */
  lemma {:induction false} ParagraphTextsEmptyIff(ps: seq<Option<string>>)
    ensures ParagraphTexts(ps) == [] <==> forall i :: 0 <= i < |ps| ==> !HasText(ps[i])
    decreases |ps|
  {
    if |ps| > 0 {
      var init := ps[..|ps| - 1];
      ParagraphTextsEmptyIff(init);
      if forall i :: 0 <= i < |ps| ==> !HasText(ps[i]) {
        assert forall i :: 0 <= i < |init| ==> !HasText(init[i]) by {
          forall i | 0 <= i < |init| ensures !HasText(init[i]) {
            assert init[i] == ps[i];
          }
        }
      }
      if ParagraphTexts(ps) == [] {
        forall i | 0 <= i < |ps| ensures !HasText(ps[i]) {
          if i < |init| {
            assert init[i] == ps[i];
          }
        }
      }
    }
  }

  /** Chapters come body by body, in order: the chapters of two runs of
      bodies are those of the first followed by those of the second. */
  lemma {:induction false} Fb2ChaptersAppend(a: seq<seq<Option<string>>>, b: seq<seq<Option<string>>>)
    ensures Fb2Chapters(a + b) == Fb2Chapters(a) + Fb2Chapters(b)
    decreases |b|
  {
    if |b| == 0 {
      assert a + b == a;
    } else {
      var b' := b[..|b| - 1];
      assert (a + b)[..|a + b| - 1] == a + b';
      Fb2ChaptersAppend(a, b');
    }
  }

  /** One body gives one chapter, its paragraph texts joined with single
      spaces, when some paragraph has text, and none otherwise. */
  lemma Fb2ChaptersOne(body: seq<Option<string>>)
    ensures Fb2Chapters([body]) ==
      if exists i :: 0 <= i < |body| && HasText(body[i])
      then [Join(ParagraphTexts(body), ' ')] else []
  {
    assert [body][..0] == [];
    ParagraphTextsEmptyIff(body);
  }

  /** Unlike PDF pages and EPUB chapters, an FB2 body whose paragraphs hold
      only whitespace still gives a chapter: the empty string. */
  lemma BlankBodyKept()
    ensures Fb2Chapters([[Some("  ")]]) == [""]
    ensures KeepStripped(["  "]) == []
  {
    assert AllSpace("  ", IsPySpace);
    assert [[Some("  ")]][..0] == [];
    assert [Some("  ")][..0] == [];
    assert ParagraphTexts([Some("  ")]) == [""];
    assert ["  "][..0] == [];
  }

  /** `_parse_fb2` over the paragraph texts of each body. */
  method ParseFb2(bodies: seq<seq<Option<string>>>) returns (chapters: seq<string>)
    ensures chapters == Fb2Chapters(bodies)
  {
    chapters := [];
    var b := 0;
    while b < |bodies|
      invariant 0 <= b <= |bodies|
      invariant chapters == Fb2Chapters(bodies[..b])
    {
      var elems := bodies[b];
      var chapterText: seq<string> := [];
      var e := 0;
      while e < |elems|
        invariant 0 <= e <= |elems|
        invariant chapterText == ParagraphTexts(elems[..e])
      {
        var text := elems[e];
        if text.Some? && text.value != "" {
          chapterText := chapterText + [Strip(text.value, IsPySpace)];
        }
        assert elems[..e + 1][..e] == elems[..e];
        e := e + 1;
      }
      assert elems[..e] == elems;
      if |chapterText| > 0 {
        chapters := chapters + [Join(chapterText, ' ')];
      }
      assert bodies[..b + 1][..b] == bodies[..b];
      b := b + 1;
    }
    assert bodies[..b] == bodies;
  }

  // ------------------------------------------------------------------------
  // Text from HTML

  /** The first `>` in `s`. */
  function FirstClose(s: string): (r: Option<nat>)
    ensures r.Some? ==> r.value < |s| && s[r.value] == '>'
    ensures r.Some? ==> forall m :: 0 <= m < r.value ==> s[m] != '>'
    ensures r.None? ==> '>' !in s
  {
    if |s| == 0 then None
    else if s[0] == '>' then Some(0)
    else match FirstClose(s[1..])
      case None => None
      case Some(k) => Some(k + 1)
  }

  /** `s[i..j + 1]` is a match of `<[^>]+>`: a `<`, at least one character
      none of which is `>`, then `>`. */
  predicate TagAt(s: string, i: int, j: int) {
    && 0 <= i && i + 1 < j < |s| && s[i] == '<' && s[j] == '>'
    && forall m :: i < m < j ==> s[m] != '>'
  }

  predicate HasNoTag(s: string) {
    forall i, j :: 0 <= i < j < |s| ==> !TagAt(s, i, j)
  }

  /** `re.sub(r'<[^>]+>', '', s)`: scanning from the left, a `<` whose first
      following `>` is not the very next character starts a tag, and the tag
      up to that `>` is dropped; every other character is kept. */
  function RemoveTags(s: string): string
    decreases |s|
  {
    if |s| == 0 then ""
    else if s[0] == '<' && FirstClose(s[1..]).Some? && FirstClose(s[1..]).value >= 1 then
      RemoveTags(s[FirstClose(s[1..]).value + 2..])
    else [s[0]] + RemoveTags(s[1..])
  }

  /** `_extract_text_from_html`: drop the tags, turn every whitespace run
      into one space, strip. */
  function ExtractTextFromHtml(html: string): (r: string)
    ensures Unpadded(r, IsPySpace)
  {
    Strip(Collapse(RemoveTags(html), IsPySpace), IsPySpace)
  }

  lemma NoTagSuffix(s: string, a: nat)
    requires a <= |s| && HasNoTag(s)
    ensures HasNoTag(s[a..])
  {
    NoTagSlice(s, a, |s|, s[a..]);
  }

  lemma NoTagSlice(s: string, a: nat, b: nat, t: string)
    requires a <= b <= |s| && HasNoTag(s) && t == s[a..b]
    ensures HasNoTag(t)
  {
    forall i, j | 0 <= i < j < |t| ensures !TagAt(t, i, j) {
      TagShift(s, a, t, i, j);
    }
  }

  /** A tag in a slice is a tag of the whole string, shifted, and back. */
  lemma TagShift(s: string, a: nat, t: string, i: int, j: int)
    requires a + |t| <= |s| && t == s[a..a + |t|] && 0 <= i < j < |t|
    ensures TagAt(t, i, j) <==> TagAt(s, a + i, a + j)
  {
    forall m | i < m < j ensures t[m] == s[a + m] {
    }
  }

  /** Putting a character in front keeps a string free of tags, provided that
      a `<` put in front is followed at once by `>` or by no `>` at all. */
  lemma ConsNoTag(c: char, r: string)
    requires HasNoTag(r)
    requires c == '<' ==> (|r| > 0 && r[0] == '>') || '>' !in r
    ensures HasNoTag([c] + r)
  {
    var t := [c] + r;
    forall i, j | 0 <= i < j < |t| ensures !TagAt(t, i, j) {
      if i == 0 {
        if c == '<' {
          if |r| > 0 && r[0] == '>' {
            assert t[1] == '>';
          } else {
            assert t[j] == r[j - 1];
          }
        }
      } else {
        assert r == t[1..1 + |r|];
        TagShift(t, 1, r, i - 1, j - 1);
      }
    }
  }

  /** In a tag-free string a leading `<` is followed at once by `>`, or by
      no `>` at all. */
  lemma LeadingOpen(s: string)
    requires |s| > 0 && s[0] == '<' && HasNoTag(s)
    ensures (|s| > 1 && s[1] == '>') || '>' !in s[1..]
  {
    FirstCloseTag(s);
  }

  /** A leading `<` and the first `>` after it, if not the very next
      character, delimit a tag. */
  lemma FirstCloseTag(s: string)
    requires |s| > 0 && s[0] == '<'
    ensures var fc := FirstClose(s[1..]);
      fc.Some? && fc.value >= 1 ==> TagAt(s, 0, fc.value + 1)
  {
    var fc := FirstClose(s[1..]);
    if fc.Some? && fc.value >= 1 {
      forall m | 0 < m < fc.value + 1 ensures s[m] != '>' {
        assert s[m] == s[1..][m - 1];
      }
    }
  }

  lemma {:induction false} RemoveTagsKeepsCloseFree(s: string)
    requires '>' !in s
    ensures RemoveTags(s) == s
    decreases |s|
  {
    if |s| > 0 {
      assert '>' !in s[1..];
      RemoveTagsKeepsCloseFree(s[1..]);
    }
  }

  /** Text before any `<` is kept as it is, in front of what is left of the
      rest. */
  lemma {:induction false} RemoveTagsKeepsText(a: string, b: string)
    requires '<' !in a
    ensures RemoveTags(a + b) == a + RemoveTags(b)
    decreases |a|
  {
    if |a| > 0 {
      var s := a + b;
      assert s[0] == a[0] != '<';
      assert RemoveTags(s) == [s[0]] + RemoveTags(s[1..]);
      assert s[1..] == a[1..] + b;
      RemoveTagsKeepsText(a[1..], b);
      assert [a[0]] + a[1..] == a;
    } else {
      assert a + b == b;
    }
  }

  /** A tag at the front (`<`, at least one character other than `>`, then
      `>`) is dropped whole. */
  lemma RemoveTagsDropsTag(x: string, b: string)
    requires |x| >= 1 && '>' !in x
    ensures RemoveTags("<" + x + ">" + b) == RemoveTags(b)
  {
    var s := "<" + x + ">" + b;
    assert s[1..] == x + ">" + b;
    assert s[1..][|x|] == '>';
    assert forall m :: 0 <= m < |x| ==> s[1..][m] == x[m];
    assert FirstClose(s[1..]) == Some(|x|);
    assert s[|x| + 2..] == b;
  }

  /** No match of `<[^>]+>` is left after the tags are removed. */
  lemma {:induction false} RemoveTagsNoTag(s: string)
    ensures HasNoTag(RemoveTags(s))
    decreases |s|
  {
    if |s| == 0 {
    } else if s[0] == '<' && FirstClose(s[1..]).Some? && FirstClose(s[1..]).value >= 1 {
      RemoveTagsNoTag(s[FirstClose(s[1..]).value + 2..]);
    } else {
      RemoveTagsNoTag(s[1..]);
      if s[0] == '<' {
        if FirstClose(s[1..]).None? {
          RemoveTagsKeepsCloseFree(s[1..]);
        } else {
          assert s[1] == '>';
          assert s[1..][1..] == s[2..];
          assert RemoveTags(s[1..]) == ">" + RemoveTags(s[2..]);
        }
      }
      ConsNoTag(s[0], RemoveTags(s[1..]));
    }
  }

  /** A tag-free string has nothing to remove. */
  lemma {:induction false} RemoveTagsOfTagFree(s: string)
    requires HasNoTag(s)
    ensures RemoveTags(s) == s
    decreases |s|
  {
    if |s| > 0 {
      if s[0] == '<' {
        LeadingOpen(s);
      }
      NoTagSuffix(s, 1);
      RemoveTagsOfTagFree(s[1..]);
    }
  }

  /** Collapsing whitespace creates no tag. */
  lemma {:induction false} CollapseNoTag(s: string)
    requires HasNoTag(s)
    ensures HasNoTag(Collapse(s, IsPySpace))
    decreases |s|
  {
    if |s| > 0 {
      if IsPySpace(s[0]) {
        var t := TrimStart(s, IsPySpace);
        TrimStartSlice(s, IsPySpace);
        NoTagSuffix(s, |s| - |t|);
        CollapseNoTag(t);
        ConsNoTag(' ', Collapse(t, IsPySpace));
      } else {
        NoTagSuffix(s, 1);
        CollapseNoTag(s[1..]);
        if s[0] == '<' {
          LeadingOpen(s);
          var r := Collapse(s[1..], IsPySpace);
          if '>' !in s[1..] {
            forall k | 0 <= k < |r| ensures r[k] != '>' {
            }
          }
        }
        ConsNoTag(s[0], Collapse(s[1..], IsPySpace));
      }
    }
  }

  /** The extracted text holds no whitespace but single spaces, no two of
      them adjacent. */
  lemma ExtractedTextCollapsed(html: string)
    ensures Collapsed(ExtractTextFromHtml(html), IsPySpace)
  {
    StripCollapsed(Collapse(RemoveTags(html), IsPySpace), IsPySpace);
  }

  /** No match of `<[^>]+>` is left in the extracted text. */
  lemma ExtractedTextNoTag(html: string)
    ensures HasNoTag(ExtractTextFromHtml(html))
  {
    RemoveTagsNoTag(html);
    CollapseNoTag(RemoveTags(html));
    NoTagStrip(Collapse(RemoveTags(html), IsPySpace), IsPySpace);
  }

  lemma NoTagStrip(s: string, isSpace: char -> bool)
    requires HasNoTag(s)
    ensures HasNoTag(Strip(s, isSpace))
  {
    var a := StripOffset(s, isSpace);
    var e := Strip(s, isSpace);
    StripSlice(s, isSpace);
    NoTagSlice(s, a, a + |e|, e);
  }

  /** Collapsing and stripping only touch whitespace: the extracted text
      holds exactly the words of the HTML with its tags removed, in order. */
  lemma ExtractedTextKeepsWords(html: string)
    ensures Tokens(ExtractTextFromHtml(html), IsPySpace) == Tokens(RemoveTags(html), IsPySpace)
  {
    var c := Collapse(RemoveTags(html), IsPySpace);
    TokensOfStrip(c, IsPySpace);
    TokensOfCollapse(RemoveTags(html), IsPySpace);
  }

  /** HTML without any `<` gives its own words. */
  lemma PlainTextKeepsWords(text: string)
    requires '<' !in text
    ensures Tokens(ExtractTextFromHtml(text), IsPySpace) == Tokens(text, IsPySpace)
  {
    RemoveTagsKeepsText(text, "");
    assert text + "" == text;
    ExtractedTextKeepsWords(text);
  }

  /** Extracting text from extracted text changes nothing. */
  lemma ExtractIdempotent(html: string)
    ensures ExtractTextFromHtml(ExtractTextFromHtml(html)) == ExtractTextFromHtml(html)
  {
    var e := ExtractTextFromHtml(html);
    ExtractedTextCollapsed(html);
    ExtractedTextNoTag(html);
    RemoveTagsOfTagFree(e);
    CollapseCollapsed(e, IsPySpace);
    StripUnpadded(e, IsPySpace);
  }
}
