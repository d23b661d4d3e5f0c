/** The HTML gallery: a fixed page header, one list item per manifest entry
    in manifest order, and a fixed footer. Image references and captions
    are inserted verbatim, with no HTML escaping. */
module Gallery {
  import opened Options
  import opened Strings
  import opened Manifest

  /** The page up to and including the opening of the list. */
  const Header: string := HeadOpen + HeadMeta + ListStyle + ImageStyle + BodyOpen

  // The header in five consecutive runs of source lines.
  const HeadOpen: string :=
    "<!DOCTYPE html>\n"
    + "<html lang=\"en\">\n"
    + "<head>\n"
    + "    <meta charset=\"UTF-8\">\n"

  const HeadMeta: string :=
    "    <meta name=\"viewport\" content=\"width=device-width, initial-scale=1.0\">\n"
    + "    <title>Plots</title>\n"
    + "    <style>\n"
    + "        body {\n"
    + "            font-family: Arial, sans-serif;\n"

  const ListStyle: string :=
    "        }\n"
    + "        ul {\n"
    + "            list-style-type: none;\n"
    + "            padding: 0;\n"
    + "        }\n"
    + "        li {\n"
    + "            display: flex;\n"
    + "            align-items: center;\n"
    + "            margin-bottom: 20px;\n"
    + "        }\n"

  const ImageStyle: string :=
    "        img {\n"
    + "            max-width: 600px;\n"
    + "            max-height: 600px;\n"
    + "            margin-right: 20px;\n"
    + "        }\n"
    + "        .caption {\n"
    + "            font-size: 18px; \n"
    + "            color: #333;\n"
    + "            text-decoration: none;\n"
    + "        }\n"

  const BodyOpen: string :=
    "    </style>\n"
    + "</head>\n"
    + "<body>\n"
    + "    <h1>Plots</h1>\n"
    + "    <ul>\n"

  /** The close of the list and of the page. */
  const Footer: string := "\n    </ul>\n</body>\n</html>\n"

  // The fixed text between the fields of one list item.
  const ItemOpen: string := "  <li><a href=\""
  const ImgSrc: string := "\"><img src=\""
  const ImgAlt: string := "\" alt=\""
  const LinkHref: string := "\"></a> <a href=\""
  const LinkClass: string := "\" class=\"caption\">"
  const ItemClose: string := "</a></li>\n"

  /** The text between the image reference and the caption. */
  function ItemMiddle(img: string): (r: string) {
    ImgSrc + img + ImgAlt
  }

  /** The text after the caption: the second link, the caption again, the
      end of the item. */
  function ItemTail(img: string, cap: string): (r: string) {
    LinkHref + img + LinkClass + cap + ItemClose
  }

  /** One list item: a thumbnail linked to the image, whose `alt` is the
      caption, then the caption as a second link to the image. */
  function Item(e: Entry): (r: string) {
    ItemOpen + e.image + ItemMiddle(e.image) + e.caption + ItemTail(e.image, e.caption)
  }

  lemma ItemRegroup(e: Entry, rest: string)
    ensures Item(e) + rest
         == ItemOpen + (e.image + (ItemMiddle(e.image) + (e.caption + (ItemTail(e.image, e.caption) + rest))))
  {
    var a, b, c, d, t := ItemOpen, e.image, ItemMiddle(e.image), e.caption, ItemTail(e.image, e.caption);
    Regroup(a + b + c + d, t, rest);
    Regroup(a + b + c, d, t + rest);
    Regroup(a + b, c, d + (t + rest));
    Regroup(a, b, c + (d + (t + rest)));
  }

  /** The list items of `ps`, in order. */
  function Items(ps: seq<Entry>): (r: string)
    decreases |ps|
  {
    if ps == [] then [] else Item(ps[0]) + Items(ps[1..])
  }

  /** Appending an entry appends its item. */
  lemma {:induction false} ItemsSnoc(ps: seq<Entry>, e: Entry)
    ensures Items(ps + [e]) == Items(ps) + Item(e)
    decreases |ps|
  {
    if ps == [] {
      assert [] + [e] == [e];
      assert [e][1..] == [];
    } else {
      assert (ps + [e])[0] == ps[0];
      assert (ps + [e])[1..] == ps[1..] + [e];
      ItemsSnoc(ps[1..], e);
      Regroup(Item(ps[0]), Items(ps[1..]), Item(e));
    }
  }

  lemma ItemsCons(e: Entry, es: seq<Entry>)
    ensures Items([e] + es) == Item(e) + Items(es)
  {
    assert ([e] + es)[0] == e && ([e] + es)[1..] == es;
  }

  /** Appending the item of the next entry to a page that holds the items
      of some entries gives the page for those entries and the next. */
  lemma AppendNextItem(ps: seq<Entry>, e: Entry)
    ensures Header + Items(ps) + Item(e) == Header + Items(ps + [e])
  {
    ItemsSnoc(ps, e);
    Regroup(Header, Items(ps), Item(e));
  }

  /** The gallery document for a manifest. A manifest of fewer than two
      lines still gives a complete page, whose list is empty. */
  function GalleryHtml(lines: seq<string>): (r: string)
    ensures |lines| < 2 ==> r == Header + Footer
  {
    Header + Items(Pairs(lines)) + Footer
  }

  /** The gallery loop: starts from the header, appends one item per pair
      of lines, then the footer. */
  method BuildGalleryHtml(lines: seq<string>) returns (html: string)
    ensures html == GalleryHtml(lines)
  {
    html := Header;
    var i := 0;
    while i < |lines| - 1
      invariant 0 <= i <= |lines| && Even(i)
      invariant html == Header + Items(Pairs(lines[..i]))
    {
      var imgFile := Trim(lines[i]);
      var caption := Trim(lines[i + 1]);
      PairsStep(lines, i);
      AppendNextItem(Pairs(lines[..i]), Entry(imgFile, caption));
      html := html + Item(Entry(imgFile, caption));
      EvenStep(i);
      i := i + 2;
    }
    PairsDone(lines, i);
    html := html + Footer;
  }

  /** Reads one list item off the front of `s`: the image reference runs up
      to the first '"', the caption up to the next one, and the rest of the
      item must repeat both. Whatever it accepts is an item followed by the
      text it returns. */
  function ParseItem(s: string): (r: Option<(Entry, string)>)
    ensures r.Some? ==> s == Item(r.value.0) + r.value.1
    ensures r.Some? ==> |r.value.1| < |s|
  {
    match Expect(s, ItemOpen)
    case None => None
    case Some(t) =>
      match SplitAt(t, '"')
      case None => None
      case Some((img, u)) =>
        match Expect(u, ItemMiddle(img))
        case None => None
        case Some(v) =>
          match SplitAt(v, '"')
          case None => None
          case Some((cap, w)) =>
            match Expect(w, ItemTail(img, cap))
            case None => None
            case Some(rest) =>
              ItemRegroup(Entry(img, cap), rest);
              Some((Entry(img, cap), rest))
  }

  lemma ItemsOfParsed(s: string, e: Entry, rest: string, es: seq<Entry>)
    requires s == Item(e) + rest && rest == Items(es)
    ensures s == Items([e] + es)
  {
    ItemsCons(e, es);
  }

  /** Reads consecutive list items until the text is used up. Whatever it
      accepts is exactly the items of the entries it returns. */
  function ParseItems(s: string): (r: Option<seq<Entry>>)
    ensures r.Some? ==> s == Items(r.value)
    decreases |s|
  {
    if s == [] then Some([])
    else match ParseItem(s)
      case None => None
      case Some((e, rest)) =>
        match ParseItems(rest)
        case None => None
        case Some(es) =>
          ItemsOfParsed(s, e, rest, es);
          Some([e] + es)
  }

  /** Reads a gallery document back into its entries. Whatever it accepts
      is the header, the items of the entries it returns, and the footer. */
  function ParseGallery(html: string): (r: Option<seq<Entry>>)
    ensures r.Some? ==> html == Header + Items(r.value) + Footer
  {
    if |Header| + |Footer| <= |html|
      && html[..|Header|] == Header
      && html[|html| - |Footer|..] == Footer
    then
      Framed(html, Header, Footer);
      ParseItems(html[|Header|..|html| - |Footer|])
    else None
  }

  /** An entry whose fields hold no double quote survives the lack of
      escaping. */
  predicate QuoteFree(e: Entry) {
    '"' !in e.image && '"' !in e.caption
  }

  /** Reading an item back gives its entry and leaves what followed it. */
  lemma ParseItemOfItem(e: Entry, rest: string)
    requires QuoteFree(e)
    ensures ParseItem(Item(e) + rest) == Some((e, rest))
  {
    var img, cap := e.image, e.caption;
    var w := ItemTail(img, cap) + rest;
    var v := cap + w;
    var u := ItemMiddle(img) + v;
    var t := img + u;
    ItemRegroup(e, rest);
    ExpectOf(ItemOpen, t);
    SplitAtOf(img, u, '"');
    ExpectOf(ItemMiddle(img), v);
    SplitAtOf(cap, w, '"');
    ExpectOf(ItemTail(img, cap), rest);
  }

  /** An item in front of readable items is read first. */
  lemma ParseItemsCons(e: Entry, rest: string, es: seq<Entry>)
    requires QuoteFree(e) && ParseItems(rest) == Some(es)
    ensures ParseItems(Item(e) + rest) == Some([e] + es)
  {
    ParseItemOfItem(e, rest);
    ParseItemsStep(Item(e) + rest, e, rest, es);
  }

  /** One step of the reader: the first item read, then the rest. */
  lemma ParseItemsStep(s: string, e: Entry, rest: string, es: seq<Entry>)
    requires ParseItem(s) == Some((e, rest)) && ParseItems(rest) == Some(es)
    ensures ParseItems(s) == Some([e] + es)
  {
  }

  /** Reading the items back gives the entries, in order. */
  lemma {:induction false} ParseItemsOfItems(ps: seq<Entry>)
    requires forall k :: 0 <= k < |ps| ==> QuoteFree(ps[k])
    ensures ParseItems(Items(ps)) == Some(ps)
    decreases |ps|
  {
    if ps != [] {
      var e, es := ps[0], ps[1..];
      assert ps == [e] + es;
      ItemsCons(e, es);
      ParseItemsOfItems(es);
      ParseItemsCons(e, Items(es), es);
    }
  }

  /** The header and footer are recognised around any body. */
  lemma ParseGalleryOf(body: string)
    ensures ParseGallery(Header + body + Footer) == ParseItems(body)
  {
    FrameOf(Header, body, Footer);
  }

  /** Paired stripped lines without a double quote make entries without
      one; an unpaired last line is never read. */
  lemma PairsQuoteFree(lines: seq<string>)
    requires forall k :: 0 <= k < |lines| - |lines| % 2 ==> '"' !in Trim(lines[k])
    ensures forall k :: 0 <= k < |Pairs(lines)| ==> QuoteFree(Pairs(lines)[k])
  {
    var ps := Pairs(lines);
    forall k | 0 <= k < |ps| ensures QuoteFree(ps[k]) {
      PairAt(lines, k);
      PairedLines(|lines|, k);
    }
  }

  /** The gallery holds exactly one item per pair of manifest lines, in
      manifest order, each made from the stripped image line and the
      stripped caption line: reading it back gives exactly those pairs,
      whenever no paired stripped line holds a double quote. */
  lemma GalleryRoundTrip(lines: seq<string>)
    requires forall k :: 0 <= k < |lines| - |lines| % 2 ==> '"' !in Trim(lines[k])
    ensures ParseGallery(GalleryHtml(lines)) == Some(Pairs(lines))
  {
    PairsQuoteFree(lines);
    ParseItemsOfItems(Pairs(lines));
    ParseGalleryOf(Items(Pairs(lines)));
  }
}
