/** `extract_text_from_pdf`: the text of every page followed by a blank line, or
    `None` when the result is only whitespace. The page texts are what the PDF library
    extracts; they are inputs here. */
module PdfText {
  import opened Wrappers
  import opened PyText

  /** The text after the loop has appended the given pages, each followed by "\n\n". */
  function PagesText(pages: seq<string>): string
    decreases |pages|
  {
    if pages == [] then "" else PagesText(pages[..|pages| - 1]) + pages[|pages| - 1] + "\n\n"
  }

  /** Pages appended in two runs give the two texts one after the other. */
  lemma {:induction false} PagesTextAppend(a: seq<string>, b: seq<string>)
    ensures PagesText(a + b) == PagesText(a) + PagesText(b)
    decreases |b|
  {
    if b != [] {
      var n := |b| - 1;
      assert (a + b)[..|a + b| - 1] == a + b[..n];
      PagesTextAppend(a, b[..n]);
    } else {
      assert a + b == a;
    }
  }

  /** The text is blank exactly when every page is blank, in particular when there are
      no pages. */
  lemma {:induction false} PagesTextBlank(pages: seq<string>)
    ensures IsBlank(PagesText(pages)) <==> forall i :: 0 <= i < |pages| ==> IsBlank(pages[i])
    decreases |pages|
  {
    if pages != [] {
      var n := |pages| - 1;
      var prev := pages[..n];
      PagesTextBlank(prev);
      assert IsBlank("\n\n");
      BlankConcat(PagesText(prev), pages[n]);
      BlankConcat(PagesText(prev) + pages[n], "\n\n");
      assert forall i :: 0 <= i < n ==> prev[i] == pages[i];
    }
  }

  /** What `extract_text_from_pdf` returns for the given page texts. */
  function PdfTextOf(pages: seq<string>): (r: Option<string>)
    ensures r.None? <==> forall i :: 0 <= i < |pages| ==> IsBlank(pages[i])
    ensures r.Some? ==> r.value == PagesText(pages) && r.value != ""
  {
    PagesTextBlank(pages);
    StripEmptyIffBlank(PagesText(pages));
    if Strip(PagesText(pages)) != "" then Some(PagesText(pages)) else None
  }

  /** The loop `text += page.extract_text() + "\n\n"` and the final `text.strip()` test. */
  method ExtractTextFromPdf(pages: seq<string>) returns (r: Option<string>)
    ensures r == PdfTextOf(pages)
    ensures r.None? <==> forall i :: 0 <= i < |pages| ==> IsBlank(pages[i])
  {
    var text := "";
    for i := 0 to |pages|
      invariant text == PagesText(pages[..i])
    {
      assert pages[..i + 1][..i] == pages[..i];
      text := text + pages[i] + "\n\n";
    }
    assert pages[..|pages|] == pages;
    if Strip(text) != "" {
      r := Some(text);
    } else {
      r := None;
    }
  }
}
