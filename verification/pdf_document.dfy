/** The HTML handed to the PDF renderer: a fixed print header, one page per
    manifest entry in manifest order, and a fixed footer. A page shows the
    image under a caption made from the image's file name without its
    directory or extension; the caption lines of the manifest are not used. */
module PdfDocument {
  import opened Options
  import opened Strings
  import opened Manifest
  import opened PathNames
  import opened Gallery

  /** The document up to and including the opening of the body. */
  const PdfHeader: string := PdfHeadOpen + PageStyle + PdfBodyOpen

  // The header in three consecutive runs of source lines.
  const PdfHeadOpen: string :=
    "<!DOCTYPE html>\n"
    + "<html lang=\"en\">\n"
    + "<head>\n"
    + "    <meta charset=\"UTF-8\">\n"
    + "    <title>Plots (PDF Version)</title>\n"
    + "    <style>\n"
    + "        @page {\n"
    + "            size: A4 portrait;\n"
    + "            margin: 20px;\n"
    + "        }\n"

  const PageStyle: string :=
    "        body {\n"
    + "            font-family: Arial, sans-serif;\n"
    + "            text-align: center;\n"
    + "        }\n"
    + "        .caption {\n"
    + "            font-size: 16px;\n"
    + "            font-weight: bold;\n"
    + "            margin-bottom: 10px;\n"
    + "        }\n"

  const PdfBodyOpen: string :=
    "        img {\n"
    + "            max-width: 100%;\n"
    + "            max-height: 100%;\n"
    + "            display: block;\n"
    + "            margin: auto;\n"
    + "        }\n"
    + "    </style>\n"
    + "</head>\n"
    + "<body>\n"

  /** The close of the body and of the document. */
  const PdfFooter: string := "\n</body>\n</html>\n"

  // The fixed text of one page, in the three pieces appended per entry.
  const PageOpen: string := "<div style=\"page-break-after: always;\">"
  const CaptionOpen: string := "<div class=\"caption\">"
  const CaptionClose: string := "</div>"
  const ImgOpen: string := "<img src=\""
  const PageClose: string := "\" alt=\"Plot\"></div>\n"

  /** The caption of a page: the stem of the image reference. */
  function CaptionDiv(img: string): (r: string) {
    CaptionOpen + Stem(img) + CaptionClose
  }

  /** The image of a page and the close of the page. */
  function ImageDiv(img: string): (r: string) {
    ImgOpen + img + PageClose
  }

  /** One page: a block that breaks the page after it, holding the caption
      and then the image. */
  function Page(img: string): (r: string) {
    PageOpen + CaptionDiv(img) + ImageDiv(img)
  }

  /** The image references of `ps`, in order: all the page loop reads of
      an entry. */
  function Images(ps: seq<Entry>): (r: seq<string>)
    ensures |r| == |ps|
    ensures forall k :: 0 <= k < |ps| ==> r[k] == ps[k].image
  {
    seq(|ps|, k requires 0 <= k < |ps| => ps[k].image)
  }

  lemma ImagesSnoc(ps: seq<Entry>, e: Entry)
    ensures Images(ps + [e]) == Images(ps) + [e.image]
  {
  }

  /** The pages for `imgs`, in order. */
  function Pages(imgs: seq<string>): (r: string)
    decreases |imgs|
  {
    if imgs == [] then [] else Page(imgs[0]) + Pages(imgs[1..])
  }

  /** Appending an image appends its page. */
  lemma {:induction false} PagesSnoc(imgs: seq<string>, img: string)
    ensures Pages(imgs + [img]) == Pages(imgs) + Page(img)
    decreases |imgs|
  {
    if imgs == [] {
      assert [] + [img] == [img];
      assert [img][1..] == [];
    } else {
      assert (imgs + [img])[0] == imgs[0];
      assert (imgs + [img])[1..] == imgs[1..] + [img];
      PagesSnoc(imgs[1..], img);
      Regroup(Page(imgs[0]), Pages(imgs[1..]), Page(img));
    }
  }

  lemma PagesCons(img: string, imgs: seq<string>)
    ensures Pages([img] + imgs) == Page(img) + Pages(imgs)
  {
    assert ([img] + imgs)[0] == img && ([img] + imgs)[1..] == imgs;
  }

  /** Appending the three pieces of the next page to a document that holds
      the pages of some images gives the document for those images and the
      next. */
  lemma AppendNextPage(imgs: seq<string>, img: string)
    ensures PdfHeader + Pages(imgs) + PageOpen + CaptionDiv(img) + ImageDiv(img)
         == PdfHeader + Pages(imgs + [img])
  {
    var h, b := PdfHeader, Pages(imgs);
    var x, y, z := PageOpen, CaptionDiv(img), ImageDiv(img);
    PagesSnoc(imgs, img);
    Regroup(h + b + x, y, z);
    Regroup(h + b, x, y + z);
    Regroup(x, y, z);
    Regroup(h, b, x + y + z);
  }

  /** The document for a manifest: one page per entry, made from its image
      reference alone. A manifest of fewer than two lines still gives a
      complete document, with no pages. */
  function PdfHtml(lines: seq<string>): (r: string)
    ensures |lines| < 2 ==> r == PdfHeader + PdfFooter
  {
    PdfHeader + Pages(Images(Pairs(lines))) + PdfFooter
  }

  /** The page loop: starts from the header, appends the three pieces of a
      page per pair of lines, reading only the image line, then the footer. */
  method BuildPdfHtml(lines: seq<string>) returns (html: string)
    ensures html == PdfHtml(lines)
  {
    html := PdfHeader;
    var i := 0;
    while i < |lines| - 1
      invariant 0 <= i <= |lines| && Even(i)
      invariant html == PdfHeader + Pages(Images(Pairs(lines[..i])))
    {
      var imgFile := Trim(lines[i]);
      var imgFilename := Stem(imgFile);
      PairsStep(lines, i);
      ImagesSnoc(Pairs(lines[..i]), Entry(imgFile, Trim(lines[i + 1])));
      AppendNextPage(Images(Pairs(lines[..i])), imgFile);
      html := html + PageOpen;
      html := html + (CaptionOpen + imgFilename + CaptionClose);
      html := html + (ImgOpen + imgFile + PageClose);
      EvenStep(i);
      i := i + 2;
    }
    PairsDone(lines, i);
    html := html + PdfFooter;
  }

  /** Reads one page off the front of `s`. The image reference is taken to
      run from the first '"' after the caption's opening up to the next
      one; the page is accepted only if `s` starts with exactly the page
      for that image. Whatever it accepts is a page followed by the text
      it returns. */
  function ParsePage(s: string): (r: Option<(string, string)>)
    ensures r.Some? ==> s == Page(r.value.0) + r.value.1
    ensures r.Some? ==> |r.value.1| < |s|
  {
    match Expect(s, PageOpen + CaptionOpen)
    case None => None
    case Some(u) =>
      match SplitAt(u, '"')
      case None => None
      case Some((_, v)) =>
        match SplitAt(v[1..], '"')
        case None => None
        case Some((img, _)) =>
          match Expect(s, Page(img))
          case None => None
          case Some(rest) => Some((img, rest))
  }

  lemma PagesOfParsed(s: string, img: string, rest: string, imgs: seq<string>)
    requires s == Page(img) + rest && rest == Pages(imgs)
    ensures s == Pages([img] + imgs)
  {
    PagesCons(img, imgs);
  }

  /** Reads consecutive pages until the text is used up. Whatever it
      accepts is exactly the pages of the image references it returns. */
  function ParsePages(s: string): (r: Option<seq<string>>)
    ensures r.Some? ==> s == Pages(r.value)
    decreases |s|
  {
    if s == [] then Some([])
    else match ParsePage(s)
      case None => None
      case Some((img, rest)) =>
        match ParsePages(rest)
        case None => None
        case Some(imgs) =>
          PagesOfParsed(s, img, rest, imgs);
          Some([img] + imgs)
  }

  /** Reads a document back into its image references. Whatever it accepts
      is the header, the pages of those references, and the footer. */
  function ParsePdf(html: string): (r: Option<seq<string>>)
    ensures r.Some? ==> html == PdfHeader + Pages(r.value) + PdfFooter
  {
    if |PdfHeader| + |PdfFooter| <= |html|
      && html[..|PdfHeader|] == PdfHeader
      && html[|html| - |PdfFooter|..] == PdfFooter
    then
      Framed(html, PdfHeader, PdfFooter);
      ParsePages(html[|PdfHeader|..|html| - |PdfFooter|])
    else None
  }

  /** The opening of the image tag, split at its double quote. */
  lemma ImgOpenSplit()
    ensures ImgOpen == "<img src=" + "\""
  {
  }

  /** A page, regrouped as the page reader takes it apart. */
  lemma PageRegroup(img: string, rest: string)
    ensures Page(img) + rest
         == (PageOpen + CaptionOpen)
          + ((Stem(img) + CaptionClose + "<img src=") + ("\"" + (img + (PageClose + rest))))
  {
    var a, b, c, d, e, f, g := PageOpen, CaptionOpen, Stem(img), CaptionClose, ImgOpen, img, PageClose;
    var q, qq := "<img src=", "\"";
    var v := qq + (f + (g + rest));
    var y := c + d + q;
    ImgOpenSplit();
    Regroup(a + (b + c + d), e + f + g, rest);
    Regroup(e + f, g, rest);
    Regroup(e, f, g + rest);
    Regroup(q, qq, f + (g + rest));
    Regroup(a, b + c + d, q + v);
    Regroup(b + c + d, q, v);
    Regroup(b + c, d, q);
    Regroup(b, c, d + q);
    Regroup(c, d, q);
    Regroup(b, y, v);
    Regroup(a, b, y + v);
  }

  /** The fixed text around the image reference: no double quote before
      it, one right after it. */
  lemma PageQuotes()
    ensures '"' !in CaptionClose + "<img src="
    ensures PageClose != [] && PageClose[0] == '"'
  {
  }

  /** A caption, as the page reader meets it, holds no double quote. */
  lemma CaptionQuoteFree(img: string)
    requires '"' !in img
    ensures '"' !in Stem(img) + CaptionClose + "<img src="
  {
    StemWithin(img, '"');
    PageQuotes();
    Regroup(Stem(img), CaptionClose, "<img src=");
  }

  /** Reading a page back gives its image reference and leaves what
      followed it, whenever the reference holds no double quote. */
  lemma ParsePageOfPage(img: string, rest: string)
    requires '"' !in img
    ensures ParsePage(Page(img) + rest) == Some((img, rest))
  {
    var x := Stem(img) + CaptionClose + "<img src=";
    var w := PageClose + rest;
    var v := "\"" + (img + w);
    CaptionQuoteFree(img);
    PageQuotes();
    PageRegroup(img, rest);
    ExpectOf(PageOpen + CaptionOpen, x + v);
    SplitAtOf(x, v, '"');
    assert v[1..] == img + w;
    SplitAtOf(img, w, '"');
    ExpectOf(Page(img), rest);
    ParsePageSteps(Page(img) + rest, x + v, x, v, img, w, rest);
  }

  /** The page reader, one match at a time. */
  lemma ParsePageSteps(s: string, u: string, x: string, v: string, img: string, w: string, rest: string)
    requires Expect(s, PageOpen + CaptionOpen) == Some(u)
    requires SplitAt(u, '"') == Some((x, v))
    requires SplitAt(v[1..], '"') == Some((img, w))
    requires Expect(s, Page(img)) == Some(rest)
    ensures ParsePage(s) == Some((img, rest))
  {
  }

  /** A page in front of readable pages is read first. */
  lemma ParsePagesCons(img: string, rest: string, imgs: seq<string>)
    requires '"' !in img && ParsePages(rest) == Some(imgs)
    ensures ParsePages(Page(img) + rest) == Some([img] + imgs)
  {
    ParsePageOfPage(img, rest);
    ParsePagesStep(Page(img) + rest, img, rest, imgs);
  }

  /** One step of the reader: the first page read, then the rest. */
  lemma ParsePagesStep(s: string, img: string, rest: string, imgs: seq<string>)
    requires ParsePage(s) == Some((img, rest)) && ParsePages(rest) == Some(imgs)
    ensures ParsePages(s) == Some([img] + imgs)
  {
  }

  /** Reading the pages back gives the image references, in order. */
  lemma {:induction false} ParsePagesOfPages(imgs: seq<string>)
    requires forall k :: 0 <= k < |imgs| ==> '"' !in imgs[k]
    ensures ParsePages(Pages(imgs)) == Some(imgs)
    decreases |imgs|
  {
    if imgs != [] {
      var img, rest := imgs[0], imgs[1..];
      assert imgs == [img] + rest;
      PagesCons(img, rest);
      ParsePagesOfPages(rest);
      ParsePagesCons(img, Pages(rest), rest);
    }
  }

  /** The header and footer are recognised around any body. */
  lemma ParsePdfOf(body: string)
    ensures ParsePdf(PdfHeader + body + PdfFooter) == ParsePages(body)
  {
    FrameOf(PdfHeader, body, PdfFooter);
  }

  /** Stripped image lines without a double quote make image references
      without one. */
  lemma ImagesQuoteFree(lines: seq<string>)
    requires forall k :: 0 <= k && k + 1 < |lines| && Even(k) ==> '"' !in Trim(lines[k])
    ensures forall k :: 0 <= k < |Images(Pairs(lines))| ==> '"' !in Images(Pairs(lines))[k]
  {
    var ps := Pairs(lines);
    forall k | 0 <= k < |ps| ensures '"' !in ps[k].image {
      PairAt(lines, k);
      EvenDouble(k);
    }
  }

  /** The document holds exactly one page per pair of manifest lines, in
      manifest order, each made from the stripped image line: reading it
      back gives exactly those image references, whenever no stripped image
      line holds a double quote. */
  lemma PdfRoundTrip(lines: seq<string>)
    requires forall k :: 0 <= k && k + 1 < |lines| && Even(k) ==> '"' !in Trim(lines[k])
    ensures ParsePdf(PdfHtml(lines)) == Some(Images(Pairs(lines)))
  {
    var imgs := Images(Pairs(lines));
    ImagesQuoteFree(lines);
    ParsePagesOfPages(imgs);
    ParsePdfOf(Pages(imgs));
  }

  /** The caption lines play no part in the document: manifests of the
      same length whose image lines strip to the same text give the same
      document, whatever their caption lines say. */
  lemma PdfIgnoresCaptions(lines1: seq<string>, lines2: seq<string>)
    requires |lines1| == |lines2|
    requires forall k :: 0 <= k < |lines1| && Even(k) ==> Trim(lines1[k]) == Trim(lines2[k])
    ensures PdfHtml(lines1) == PdfHtml(lines2)
  {
    var ps1, ps2 := Pairs(lines1), Pairs(lines2);
    PairsCount(lines1);
    PairsCount(lines2);
    forall k | 0 <= k < |ps1| ensures ps1[k].image == ps2[k].image {
      SameImageLine(lines1, lines2, k);
    }
    SameImages(ps1, ps2);
  }

  lemma SameImageLine(lines1: seq<string>, lines2: seq<string>, k: nat)
    requires |lines1| == |lines2| && k < |Pairs(lines1)| && k < |Pairs(lines2)|
    requires forall k :: 0 <= k < |lines1| && Even(k) ==> Trim(lines1[k]) == Trim(lines2[k])
    ensures Pairs(lines1)[k].image == Pairs(lines2)[k].image
  {
    PairsCount(lines1);
    PairsCount(lines2);
    PairAt(lines1, k);
    PairAt(lines2, k);
    EvenDouble(k);
  }

  lemma SameImages(ps1: seq<Entry>, ps2: seq<Entry>)
    requires |ps1| == |ps2|
    requires forall k :: 0 <= k < |ps1| ==> ps1[k].image == ps2[k].image
    ensures Images(ps1) == Images(ps2)
  {
  }

  /** The document has one page per gallery item, in the same order, and
      page k shows the image of gallery item k: reading both back gives the
      same image references. */
  lemma PdfMatchesGallery(lines: seq<string>)
    requires forall k :: 0 <= k < |lines| - |lines| % 2 ==> '"' !in Trim(lines[k])
    ensures ParseGallery(GalleryHtml(lines)).Some?
    ensures ParsePdf(PdfHtml(lines)) == Some(Images(ParseGallery(GalleryHtml(lines)).value))
  {
    GalleryRoundTrip(lines);
    forall k | 0 <= k && k + 1 < |lines| && Even(k) ensures '"' !in Trim(lines[k]) {
      PairedLine(|lines|, k);
    }
    PdfRoundTrip(lines);
  }
}
