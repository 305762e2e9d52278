/** Pagination of the reader page (script.js): the page count computed when the
    table of contents is built, the text of one page computed when a page is
    shown, and the words of a page that the highlighter walks through. */
module Pagination {
  import opened Text

  /** Pieces per page when the content is one plain string. */
  const WordsPerPage: nat := 200

  /** The `content` of an uploaded book: the back end's list of pages (PDF,
      EPUB, FB2) or one plain string (TXT). */
  datatype Content = PageArray(pages: seq<string>) | Plain(text: string)

  /** `content.split(' ')`: pieces between single spaces, empty ones included. */
  function Pieces(text: string): seq<string>
  {
    Split(text, ' ')
  }

  /** `Math.ceil(n / 200)`. */
  function PagesFor(n: nat): (count: nat)
    ensures (count - 1) * WordsPerPage < n <= count * WordsPerPage || (n == 0 && count == 0)
  {
    (n + WordsPerPage - 1) / WordsPerPage
  }

  /** The page count `createTableOfContents` stores in `total_pages`: the
      array's length, or one page per 200 pieces of the plain string (at least
      one, since splitting always yields a piece). */
  function PageCount(c: Content): (count: nat)
    ensures c.PageArray? ==> count == |c.pages|
    ensures c.Plain? ==>
      (count >= 1 && (count - 1) * WordsPerPage < |Pieces(c.text)| <= count * WordsPerPage)
  {
    match c
    case PageArray(pages) => |pages|
    case Plain(text) => PagesFor(|Pieces(text)|)
  }

  /** `words.slice(200 * p, 200 * p + 200)`, with JavaScript's clamping of
      both bounds to the length. */
  function PageSlice(pieces: seq<string>, p: nat): seq<string>
  {
    var n := |pieces|;
    var start := if p * WordsPerPage < n then p * WordsPerPage else n;
    var end := if p * WordsPerPage + WordsPerPage < n then p * WordsPerPage + WordsPerPage else n;
    pieces[start..end]
  }

  /** The text `showPage(p)` displays: the array element (empty past the end),
      or the page's pieces joined with single spaces. */
  function PageText(c: Content, p: nat): string
  {
    match c
    case PageArray(pages) => if p < |pages| then pages[p] else ""
    case Plain(text) => Join(PageSlice(Pieces(text), p), ' ')
  }

  /** The words of a page that get highlighted: `split(/\s+/)` with the empty
      pieces dropped. */
  function PageWords(c: Content, p: nat): seq<string>
  {
    Tokens(PageText(c, p), IsJsSpace)
  }

  /** Every page, in order, as the table of contents lists them. */
  function AllPages(c: Content): seq<string>
  {
    seq(PageCount(c), p requires 0 <= p < PageCount(c) => PageText(c, p))
  }

  /** Plain content: every page but the last holds exactly 200 pieces, the
      last holds between 1 and 200, and pages past the count hold none. */
  lemma PlainPageSizes(text: string, p: nat)
    ensures var n, k := |PageSlice(Pieces(text), p)|, PageCount(Plain(text));
      && (p + 1 < k ==> n == WordsPerPage)
      && (p + 1 == k ==> 1 <= n <= WordsPerPage)
      && (p >= k ==> n == 0)
  {
  }

  /** A page index at or past the page count shows an empty page, for both
      kinds of content, instead of failing. */
  lemma OutOfRangePageIsEmpty(c: Content, p: nat)
    requires p >= PageCount(c)
    ensures PageText(c, p) == ""
    ensures PageWords(c, p) == []
  {
  }

  // ------------------------------------------------------------------------
  // Joining all pages of plain content gives the content back.

  /** The page texts of a list of pieces. */
  function PageTexts(xs: seq<string>): (r: seq<string>)
    ensures |r| == PagesFor(|xs|)
  {
    seq(PagesFor(|xs|), p requires 0 <= p < PagesFor(|xs|) => Join(PageSlice(xs, p), ' '))
  }

  lemma PageTextsStep(xs: seq<string>)
    requires |xs| > WordsPerPage
    ensures PageTexts(xs) == [Join(xs[..WordsPerPage], ' ')] + PageTexts(xs[WordsPerPage..])
  {
    var rest := xs[WordsPerPage..];
    assert PagesFor(|xs|) == 1 + PagesFor(|rest|);
    forall p | 0 <= p < PagesFor(|rest|)
      ensures PageSlice(xs, p + 1) == PageSlice(rest, p)
    {
      assert (p + 1) * WordsPerPage == p * WordsPerPage + WordsPerPage;
      var a := if p * WordsPerPage < |rest| then p * WordsPerPage else |rest|;
      var b := if p * WordsPerPage + WordsPerPage < |rest| then p * WordsPerPage + WordsPerPage else |rest|;
      assert PageSlice(rest, p) == rest[a..b];
      assert PageSlice(xs, p + 1) == xs[WordsPerPage + a..WordsPerPage + b];
      assert rest[a..b] == xs[WordsPerPage + a..WordsPerPage + b] by {
        forall i | 0 <= i < b - a ensures rest[a..b][i] == xs[WordsPerPage + a + i] {}
      }
    }
  }

  lemma {:induction false} JoinPageTexts(xs: seq<string>)
    requires |xs| >= 1
    ensures Join(PageTexts(xs), ' ') == Join(xs, ' ')
    decreases |xs|
  {
    if |xs| <= WordsPerPage {
      assert PageSlice(xs, 0) == xs;
      assert PageTexts(xs) == [Join(xs, ' ')];
    } else {
      var rest := xs[WordsPerPage..];
      PageTextsStep(xs);
      JoinPageTexts(rest);
      JoinAppend(xs[..WordsPerPage], rest, ' ');
      assert xs[..WordsPerPage] + rest == xs;
      assert PageTexts(xs)[1..] == PageTexts(rest);
    }
  }

  /** Plain content: joining all its pages with single spaces reproduces the
      content exactly, so pagination loses and adds nothing. */
  lemma PlainPagesJoinToContent(text: string)
    ensures Join(AllPages(Plain(text)), ' ') == text
  {
    assert AllPages(Plain(text)) == PageTexts(Pieces(text));
    JoinPageTexts(Pieces(text));
    JoinSplit(text, ' ');
  }

  // ------------------------------------------------------------------------
  // The highlighted words of all pages, in page order, are the words of the
  // whole content.

  function Flatten(xss: seq<seq<string>>): seq<string>
  {
    if |xss| == 0 then [] else xss[0] + Flatten(xss[1..])
  }

  function WordsOfPages(pages: seq<string>): (r: seq<seq<string>>)
    ensures |r| == |pages|
  {
    seq(|pages|, p requires 0 <= p < |pages| => Tokens(pages[p], IsJsSpace))
  }

  lemma {:induction false} PageTextsWords(xs: seq<string>)
    requires |xs| >= 1
    ensures Flatten(WordsOfPages(PageTexts(xs))) == Tokens(Join(xs, ' '), IsJsSpace)
    decreases |xs|
  {
    if |xs| <= WordsPerPage {
      assert PageSlice(xs, 0) == xs;
      assert PageTexts(xs) == [Join(xs, ' ')];
      assert WordsOfPages(PageTexts(xs)) == [Tokens(Join(xs, ' '), IsJsSpace)];
      assert Tokens(Join(xs, ' '), IsJsSpace) + [] == Tokens(Join(xs, ' '), IsJsSpace);
    } else {
      var head, rest := xs[..WordsPerPage], xs[WordsPerPage..];
      PageTextsStep(xs);
      PageTextsWords(rest);
      assert WordsOfPages(PageTexts(xs))[1..] == WordsOfPages(PageTexts(rest));
      JoinAppend(head, rest, ' ');
      assert head + rest == xs;
      TokensAcrossSpace(Join(head, ' '), ' ', Join(rest, ' '), IsJsSpace);
    }
  }

  /** Plain content: the highlighted words of page 0, then page 1, and so on,
      are exactly the whitespace-separated words of the whole content. */
  lemma PlainPagesCoverAllWords(text: string)
    ensures Flatten(WordsOfPages(AllPages(Plain(text)))) == Tokens(text, IsJsSpace)
  {
    assert AllPages(Plain(text)) == PageTexts(Pieces(text));
    PageTextsWords(Pieces(text));
    JoinSplit(text, ' ');
  }
}
