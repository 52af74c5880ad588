/** The text handed to the rewriting service (main.py lines 31-33): the
    text of every page after the cover, pages without text skipped, joined
    with newlines. A page is given by its extracted text; the empty string
    stands for a page whose extraction yields `None` or `""`, both of which
    the source's `if page.extract_text()` filters out. */
module PageText {
  import opened Strings

  /** The non-empty texts of a list, in order. */
  function NonEmpty(texts: seq<string>): (r: seq<string>)
    ensures |r| <= |texts|
    ensures forall k :: 0 <= k < |r| ==> r[k] != ""
    ensures forall t :: t in r <==> t != "" && t in texts
    decreases |texts|
  {
    if texts == [] then []
    else (if texts[0] == "" then [] else [texts[0]]) + NonEmpty(texts[1..])
  }

  lemma {:induction false} NonEmptyAppend(a: seq<string>, b: seq<string>)
    ensures NonEmpty(a + b) == NonEmpty(a) + NonEmpty(b)
    decreases |a|
  {
    if a == [] {
      assert a + b == b;
    } else {
      assert (a + b)[1..] == a[1..] + b;
      NonEmptyAppend(a[1..], b);
    }
  }

  /** The pages that contribute, in page order: every page after the first
      (`pages[1:]`, empty for an empty document) whose text is not empty. */
  function Contributing(pages: seq<string>): (r: seq<string>)
    ensures |pages| <= 1 ==> r == []
    ensures |pages| >= 1 ==> forall t :: t in r <==> t != "" && t in pages[1..]
  {
    if pages == [] then [] else NonEmpty(pages[1..])
  }

  /** `"\n".join(page.extract_text() for page in pages[1:] if page.extract_text())`. */
  function ExtractText(pages: seq<string>): (r: string)
    ensures |pages| <= 1 ==> r == ""
  {
    Join(Contributing(pages), '\n')
  }

  /** Read as a stream: adding a page at the end appends its text after a
      newline, appends just its text when nothing came before, and changes
      nothing when it is empty or is the cover. Together with the
      one-page case this determines the extracted text completely. */
  lemma ExtractTextSnoc(pages: seq<string>, page: string)
    ensures ExtractText(pages + [page]) ==
      if |pages| == 0 || page == "" then ExtractText(pages)
      else if ExtractText(pages) == "" then page
      else ExtractText(pages) + "\n" + page
  {
    if |pages| == 0 {
      assert (pages + [page])[1..] == [];
    } else {
      assert (pages + [page])[1..] == pages[1..] + [page];
      NonEmptyAppend(pages[1..], [page]);
      assert NonEmpty([page]) == (if page == "" then [] else [page]) + NonEmpty([]);
      assert NonEmpty(pages[1..]) + [] == NonEmpty(pages[1..]);
    }
    if |pages| >= 1 && page != "" {
      var c := Contributing(pages);
      if |c| == 0 {
        assert c + [page] == [page];
      } else {
        assert Contributing(pages + [page]) == c + [page];
        JoinSnoc(c, page, '\n');
        NonEmptyJoin(c, '\n');
        assert ExtractText(pages + [page]) == ExtractText(pages) + "\n" + page;
      }
    }
  }

  /** A join of non-empty parts is empty only when there are no parts. */
  lemma {:induction false} NonEmptyJoin(parts: seq<string>, sep: char)
    requires |parts| >= 1 && parts[0] != ""
    ensures Join(parts, sep) != ""
  {
    if |parts| > 1 {
      assert Join(parts, sep)[0] == parts[0][0];
    }
  }

  /** The cover page never contributes, whatever it holds. */
  lemma CoverIgnored(cover: string, other: string, rest: seq<string>)
    ensures ExtractText([cover] + rest) == ExtractText([other] + rest)
  {
    assert ([cover] + rest)[1..] == rest == ([other] + rest)[1..];
  }

  /** An empty page anywhere after the cover leaves no trace, not even a
      blank line. */
  lemma EmptyPageInvisible(before: seq<string>, after: seq<string>)
    requires |before| >= 1
    ensures ExtractText(before + [""] + after) == ExtractText(before + after)
  {
    var withEmpty := before + [""] + after;
    var without := before + after;
    assert withEmpty[1..] == before[1..] + [""] + after;
    assert without[1..] == before[1..] + after;
    NonEmptyAppend(before[1..] + [""], after);
    NonEmptyAppend(before[1..], [""]);
    NonEmptyAppend(before[1..], after);
    assert NonEmpty([""]) == [];
    assert NonEmpty(before[1..]) + [] == NonEmpty(before[1..]);
  }

  /** When no page after the cover holds a newline, splitting the
      extracted text on newlines gives back the contributing pages, each
      whole and in page order, and there is one newline fewer than
      contributing pages. The cover may hold anything. */
  lemma ExtractTextSplit(pages: seq<string>)
    requires forall i :: 1 <= i < |pages| ==> '\n' !in pages[i]
    requires |Contributing(pages)| >= 1
    ensures Split(ExtractText(pages), '\n') == Contributing(pages)
    ensures Count(ExtractText(pages), '\n') == |Contributing(pages)| - 1
  {
    var c := Contributing(pages);
    forall k | 0 <= k < |c| ensures '\n' !in c[k] {
      assert c[k] in pages[1..];
      var i :| 0 <= i < |pages[1..]| && pages[1..][i] == c[k];
      assert pages[i + 1] == c[k];
    }
    SplitJoin(c, '\n');
    JoinCount(c, '\n');
  }

  /** Nothing is extracted exactly when no page after the cover has text. */
  lemma ExtractTextEmpty(pages: seq<string>)
    ensures ExtractText(pages) == "" <==> forall i :: 1 <= i < |pages| ==> pages[i] == ""
  {
    var c := Contributing(pages);
    if |c| >= 1 {
      assert c[0] in c;
      NonEmptyJoin(c, '\n');
    } else {
      forall i | 1 <= i < |pages| ensures pages[i] == "" {
        assert pages[i] in pages[1..];
      }
    }
  }
}
