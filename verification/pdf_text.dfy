/**
  `ATSAnalyzer.extract_text_from_pdf`: the PDF reader is opened, each page's
  text is appended in page order with no separator, and any exception (an
  unparseable file, or a page whose extraction raises) turns the whole result
  into `None`. PyPDF2 itself is not modelled: a document is either unparseable
  or a sequence of pages, each of which either yields its text or raises.
 */
module PdfText {
  import opened Wrappers

  /** `Some(t)`: the page's `extract_text()` returns `t`; `None`: it raises. */
  type PageResult = Option<string>

  datatype PdfDocument = Unparseable | Parsed(pages: seq<PageResult>)

  /** The page texts joined in order with no separator. */
  function Concat(texts: seq<string>): string {
    if |texts| == 0 then "" else Concat(texts[..|texts| - 1]) + texts[|texts| - 1]
  }

  predicate AllPagesExtract(pages: seq<PageResult>) {
    forall j :: 0 <= j < |pages| ==> pages[j].Some?
  }

  function PageTexts(pages: seq<PageResult>): (texts: seq<string>)
    requires AllPagesExtract(pages)
    ensures |texts| == |pages|
    ensures forall j :: 0 <= j < |pages| ==> pages[j] == Some(texts[j])
  {
    seq(|pages|, j requires 0 <= j < |pages| => pages[j].value)
  }

  /**
    The document's text when every step succeeds, `None` otherwise: all or
    nothing. It is `""` exactly when the document parses and every page
    yields `""`, as for an image-only PDF.
   */
  function DocumentText(doc: PdfDocument): (r: Option<string>)
    ensures r.None? <==> doc.Unparseable? || exists j :: 0 <= j < |doc.pages| && doc.pages[j].None?
    ensures r == Some("") <==> doc.Parsed? && forall j :: 0 <= j < |doc.pages| ==> doc.pages[j] == Some("")
  {
    match doc
    case Unparseable => None
    case Parsed(pages) =>
      if AllPagesExtract(pages) then
        ConcatEmptyIff(PageTexts(pages));
        Some(Concat(PageTexts(pages)))
      else
        None
  }

  /** The source's loop: `text += page.extract_text()` for each page, with an exception aborting to `None`. */
  method ExtractText(doc: PdfDocument) returns (text: Option<string>)
    ensures text.None? <==> doc.Unparseable? || exists j :: 0 <= j < |doc.pages| && doc.pages[j].None?
    ensures text.Some? ==> AllPagesExtract(doc.pages) && text.value == Concat(PageTexts(doc.pages))
    ensures text == DocumentText(doc)
  {
    if doc.Unparseable? {
      return None;
    }
    var pages := doc.pages;
    var acc := "";
    var i := 0;
    while i < |pages|
      invariant 0 <= i <= |pages|
      invariant AllPagesExtract(pages[..i])
      invariant acc == Concat(PageTexts(pages[..i]))
    {
      match pages[i]
      case None =>
        return None;
      case Some(t) =>
        assert PageTexts(pages[..i + 1])[..i] == PageTexts(pages[..i]);
        acc := acc + t;
      i := i + 1;
    }
    assert pages[..i] == pages;
    return Some(acc);
  }

  /** Joining two runs of pages joins their texts. */
  lemma {:induction false} ConcatAppend(a: seq<string>, b: seq<string>)
    ensures Concat(a + b) == Concat(a) + Concat(b)
    decreases |b|
  {
    if |b| == 0 {
      assert a + b == a;
    } else {
      var b' := b[..|b| - 1];
      assert (a + b)[..|a + b| - 1] == a + b';
      ConcatAppend(a, b');
    }
  }

  /** The combined text is as long as all page texts together. */
  function TotalLength(texts: seq<string>): nat {
    if |texts| == 0 then 0 else TotalLength(texts[..|texts| - 1]) + |texts[|texts| - 1]|
  }

  lemma {:induction false} ConcatLength(texts: seq<string>)
    ensures |Concat(texts)| == TotalLength(texts)
  {
    if |texts| > 0 {
      ConcatLength(texts[..|texts| - 1]);
    }
  }

  /** Page `j`'s text sits in the combined text right after the texts of the pages before it. */
  lemma PageInPlace(texts: seq<string>, j: nat)
    requires j < |texts|
    ensures var start := |Concat(texts[..j])|;
            start + |texts[j]| <= |Concat(texts)| && Concat(texts)[start..start + |texts[j]|] == texts[j]
  {
    assert texts == texts[..j] + [texts[j]] + texts[j + 1..];
    ConcatAppend(texts[..j] + [texts[j]], texts[j + 1..]);
    ConcatAppend(texts[..j], [texts[j]]);
    assert [texts[j]][..0] == [];
  }

  /** The combined text is empty exactly when every page's text is empty (e.g. a scanned image-only PDF). */
  lemma {:induction false} ConcatEmptyIff(texts: seq<string>)
    ensures Concat(texts) == "" <==> forall j :: 0 <= j < |texts| ==> texts[j] == ""
  {
    if |texts| > 0 {
      var init := texts[..|texts| - 1];
      ConcatEmptyIff(init);
      assert forall j :: 0 <= j < |init| ==> init[j] == texts[j];
    }
  }
}
