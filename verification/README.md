# Plot gallery and PDF page generator, modelled in Dafny

`create_plot_html.py` turns an image list into two documents. The image list
is a text file of line pairs: an image reference, then its caption. The first
document is an HTML gallery: a fixed header, one list item per pair, and a
fixed footer. The second is an HTML document that is rendered to PDF: a fixed
print header, then one page per pair holding the image under a caption made
from the image's file name without its directory or extension, then a fixed
footer. The PDF file name is the gallery's file name with `.html` replaced by
`.pdf`.

This project models that string construction, with the line contents taken
as given:

- `strings.dfy` (modules `Options`, `Strings`) holds Python's `str.isspace` and `str.strip`, plus a few search and prefix helpers.
- `paths.dfy` (module `PathNames`) holds the POSIX `os.path.basename` and `os.path.splitext`, the caption stem built from them, `str.replace`, and the PDF output path.
- `manifest.dfy` (module `Manifest`) models how the loops pair the lines of the image list.
- `gallery.dfy` (module `Gallery`) holds the gallery page, the loop that builds it (`BuildGalleryHtml`, a method with a `while` loop proved equal to `GalleryHtml`), and a reader that takes the page apart again.
- `pdf_document.dfy` (module `PdfDocument`) holds the same for the PDF document (`BuildPdfHtml`, `PdfHtml`, `ParsePdf`).

The readers are there to state what the generators promise. They are not in
the source. Reading a generated document back gives exactly the entries it was
built from. That is how the model shows four things: one item or page per
pair, in manifest order; each item built from the stripped lines, inserted
verbatim; nothing else in between; and the PDF showing the gallery's images
in the gallery's order.

## Model

| member | source | states |
|---|---|---|
| Strings.IsSpace | create_plot_html.py:69-70 | the characters `strip` removes: exactly those for which Python's `str.isspace` holds (a definition, without a contract of its own) |
| Strings.Trim | create_plot_html.py:69-70 | `strip` never lengthens a line; what it keeps and removes is stated by `TrimSlice` and `TrimPadded` |
| Strings.LeadingSpacesSpec | create_plot_html.py:69-70 | the leading whitespace that `strip` removes is the longest run of `isspace` characters at the front |
| Strings.TrailingSpacesSpec | create_plot_html.py:69-70 | the trailing whitespace that `strip` removes is the longest run of `isspace` characters at the back |
| Strings.TrimSlice | create_plot_html.py:69-70 | `strip` keeps one contiguous slice of the line; everything cut off either side is whitespace, and the slice neither starts nor ends with whitespace |
| Strings.TrimPadded | create_plot_html.py:69-70 | whitespace around a text that has no whitespace at either end is exactly what `strip` removes, so the text comes back unchanged |
| Strings.TrimIdempotent | create_plot_html.py:69-70 | stripping an already stripped line changes nothing |
| PathNames.Basename | create_plot_html.py:122 | `basename` is the suffix after the last '/', holds no '/', and is the whole path when there is no '/' |
| PathNames.BasenameAfterDir | create_plot_html.py:122 | after a directory prefix that ends in '/', `basename` is the file name |
| PathNames.SplitExt | create_plot_html.py:122 | `splitext` splits the path into root and extension; the extension is empty or a '.' followed by neither '.' nor '/' |
| PathNames.Stem | create_plot_html.py:122 | the page caption holds no '/' and is a prefix of the basename |
| PathNames.StemWithin | create_plot_html.py:122 | the caption holds no character that the image reference lacks |
| PathNames.StemWithoutDot | create_plot_html.py:122 | a basename with no dot is its own caption |
| PathNames.StemOfName | create_plot_html.py:122 | for `dir/name.ext` the caption is `name`, unless `name` is all dots, in which case the whole `name.ext` is kept |
| PathNames.StemExample | create_plot_html.py:122 | the caption for `/x/y/plot_01.png` is `plot_01` |
| PathNames.ReplaceAll | create_plot_html.py:23 | `str.replace`, scanning left to right without overlap; its contract says only that a replacement no longer than the pattern never lengthens the text, and its meaning is in the `ReplaceAll…` lemmas |
| PathNames.ReplaceAllAbsent | create_plot_html.py:23 | `replace` changes nothing when the pattern does not occur |
| PathNames.ReplaceAllShrinks | create_plot_html.py:23 | `replace` with a shorter replacement shortens any text in which the pattern occurs |
| PathNames.ReplaceAllTrailing | create_plot_html.py:23 | a trailing copy of a pattern whose first character does not recur in it is always replaced |
| PathNames.ReplaceAllSplit | create_plot_html.py:23 | for such a pattern, the text before its first occurrence is kept, that occurrence is replaced, and the rest is replaced in the same way |
| PathNames.PdfPath | create_plot_html.py:23 | the PDF path is never longer than the HTML path; its meaning is in the `PdfPath…` lemmas |
| PathNames.PdfPathUnchangedIff | create_plot_html.py:23 | the PDF path equals the HTML path if and only if the HTML path does not contain `.html` |
| PathNames.PdfPathSplit | create_plot_html.py:23 | every `.html` is replaced, not only the last: the text before the first `.html` is kept, that `.html` becomes `.pdf`, and the rest of the path is treated the same way |
| PathNames.PdfPathLeavesNoHtml | create_plot_html.py:23 | the PDF path contains no `.html` at all |
| PathNames.PdfPathOfHtmlName | create_plot_html.py:23 | a final `.html` always becomes `.pdf`, whatever precedes it |
| PathNames.PdfPathOfPlainName | create_plot_html.py:23 | for `name.html` where `name` has no `.html`, the PDF path is `name.pdf` |
| PathNames.PdfPathOverwritesGallery | create_plot_html.py:23 | as written, the output path `gallery.htm` yields the PDF path `gallery.htm` |
| PathNames.IntendedPdfPath | create_plot_html.py:23 | the corrected PDF path always ends in `.pdf` and never equals the HTML path |
| PathNames.IntendedPdfPathAgrees | create_plot_html.py:23 | on `name.html` where `name` has no `.html`, the corrected path and the written one agree, both `name.pdf` |
| PathNames.PdfPathRenamesDirectory | create_plot_html.py:23 | as written, `dir.html/name.html` yields `dir.pdf/name.pdf`: a `.html` in a directory name is replaced too |
| PathNames.IntendedPdfPathKeepsDirectory | create_plot_html.py:23 | the corrected path changes only the file name, never the directory |
| Manifest.Pairs | create_plot_html.py:68-70 | the pairs the loops visit; its contract says that no line is used twice (two lines per entry at most), and `PairsCount` and `PairAt` give the count and the lines of each entry |
| Manifest.PairsCount | create_plot_html.py:68 | the loops visit `len(lines) // 2` pairs |
| Manifest.PairAt | create_plot_html.py:68-70 | entry k is built from stripped line 2k (the image) and stripped line 2k+1 (the caption) |
| Manifest.PairsOfShortManifest | create_plot_html.py:68 | an image list of fewer than two lines gives no entries |
| Manifest.PairsDropTrailing | create_plot_html.py:68 | an unpaired last line adds no entry |
| Manifest.PairsAppend | create_plot_html.py:68-70 | pairing an image list that is split after an even number of lines gives the entries of the first part followed by those of the second |
| Manifest.PairsStep | create_plot_html.py:68-70 | each loop iteration consumes two lines and adds the entry they make |
| Manifest.PairsDone | create_plot_html.py:68 | when the loop stops, the lines consumed give all the entries |
| Gallery.Item | create_plot_html.py:72 | one list item: the image reference as link target, `src` and second link target, the caption as `alt` and as link text (a definition, without a contract of its own; `ParseItemOfItem` states what it holds) |
| Gallery.Items | create_plot_html.py:68-72 | the items of the entries, in order (a definition, without a contract of its own; `ItemsSnoc` and `ParseItemsOfItems` state what it holds) |
| Gallery.ItemsSnoc | create_plot_html.py:68-72 | appending an entry appends its item to the list |
| Gallery.AppendNextItem | create_plot_html.py:72 | the append at line 72 extends the page for entries 0..k-1 to the page for entries 0..k |
| Gallery.BuildGalleryHtml | create_plot_html.py:27-78 | the loop builds exactly the header, one item per entry in manifest order, and the footer |
| Gallery.ParseItem | create_plot_html.py:72 | whatever the item reader accepts is one item followed by the rest of the text |
| Gallery.ParseItems | create_plot_html.py:68-72 | whatever the list reader accepts is exactly the items of the entries it returns |
| Gallery.ParseGallery | create_plot_html.py:27-78 | whatever the page reader accepts is the header, the items of the entries it returns, and the footer |
| Gallery.ParseItemOfItem | create_plot_html.py:72 | an item whose fields hold no double quote reads back as its entry, with the rest of the text left over |
| Gallery.ParseItemsOfItems | create_plot_html.py:68-72 | the items of quote-free entries read back as those entries, in order |
| Gallery.ParseGalleryOf | create_plot_html.py:27-78 | the reader finds the header and footer around any body |
| Gallery.GalleryRoundTrip | create_plot_html.py:68-72 | the gallery reads back as exactly the stripped (image, caption) pairs, in manifest order |
| Gallery.GalleryHtml | create_plot_html.py:27-78 | an image list of fewer than two lines gives the header and footer with an empty list; `BuildGalleryHtml` and `GalleryRoundTrip` state the rest |
| PdfDocument.Images | create_plot_html.py:121 | the image references the page loop reads: one per entry, in order, the entry's image and nothing of its caption |
| PdfDocument.Page | create_plot_html.py:122-126 | one page: a page-break block holding the stem as caption and then the image (a definition, without a contract of its own; `ParsePageOfPage` states what it holds) |
| PdfDocument.Pages | create_plot_html.py:120-126 | the pages of the images, in order (a definition, without a contract of its own; `PagesSnoc` and `ParsePagesOfPages` state what it holds) |
| PdfDocument.PagesSnoc | create_plot_html.py:120-126 | appending an image appends its page |
| PdfDocument.AppendNextPage | create_plot_html.py:124-126 | the three appends at lines 124-126 extend the document for images 0..k-1 to the document for images 0..k |
| PdfDocument.BuildPdfHtml | create_plot_html.py:89-131 | the loop builds exactly the print header, one page per entry in manifest order, and the footer |
| PdfDocument.ParsePage | create_plot_html.py:124-126 | whatever the page reader accepts is one page followed by the rest of the text |
| PdfDocument.ParsePages | create_plot_html.py:120-126 | whatever the pages reader accepts is exactly the pages of the images it returns |
| PdfDocument.ParsePdf | create_plot_html.py:89-131 | whatever the document reader accepts is the header, the pages of the images it returns, and the footer |
| PdfDocument.CaptionQuoteFree | create_plot_html.py:122 | a caption taken from a quote-free image reference holds no double quote |
| PdfDocument.ParsePageOfPage | create_plot_html.py:122-126 | a page for a quote-free image reference reads back as that reference, with the rest of the text left over |
| PdfDocument.ParsePagesOfPages | create_plot_html.py:120-126 | the pages for quote-free image references read back as those references, in order |
| PdfDocument.ParsePdfOf | create_plot_html.py:89-131 | the reader finds the print header and footer around any body |
| PdfDocument.ImagesQuoteFree | create_plot_html.py:121 | stripped image lines without a double quote give image references without one |
| PdfDocument.PdfRoundTrip | create_plot_html.py:119-131 | the document reads back as exactly the stripped image lines 0, 2, 4, ..., one page each, in manifest order |
| PdfDocument.PdfIgnoresCaptions | create_plot_html.py:120-126 | two image lists of the same length whose image lines strip to the same text give the same document, whatever their caption lines hold |
| PdfDocument.SameImageLine | create_plot_html.py:120-121 | equal stripped image lines give entries with equal image references |
| PdfDocument.PdfMatchesGallery | create_plot_html.py:120-126 | the document has one page per gallery item, in the gallery's order, and page k shows the image of item k |
| PdfDocument.PdfHtml | create_plot_html.py:89-131 | an image list of fewer than two lines gives the print header and footer with no pages; `BuildPdfHtml` and `PdfRoundTrip` state the rest |

## Left out

- Reading the image list (lines 64-65) is left out. The model takes the list of lines that `readlines` returns, terminators included, as its input. Splitting the file into lines is not modelled.
- Writing the gallery (lines 81-82) and the temporary file `temp_pdf_generation.html` (lines 134-136) is left out. So are the WeasyPrint conversion (line 140) and the removal of the temporary file (line 142). They are file-system and foreign-library effects.
- The argument check and its exit (lines 16-18) are left out. So are the success and error messages (lines 17, 84, 141, 144) and the exception handler around the conversion (lines 139-144).
- `plot_timeseries_CMIP7_testrun.py` is not part of this model.
- `os.path.basename` and `os.path.splitext` are modelled as on POSIX. On Windows, `ntpath` also splits at `\` and after a drive letter such as `C:`; that behaviour is not modelled.
- Python strings are sequences of code points. Dafny's `char` excludes lone surrogates, so text holding them is outside the model.
- PathNames.ReplaceAll: requires a non-empty pattern. Python's `replace` with an empty pattern inserts the replacement between characters. The generator only replaces `".html"`.
- PathNames.PdfPath: its own contract bounds only the length. Its meaning is proved in the `PdfPath…` lemmas above.
- Gallery.GalleryRoundTrip: holds only when no paired stripped line contains a double quote. The generator escapes nothing, so a quote in an image reference or caption ends the attribute early, and the page no longer determines its entries.
- PdfDocument.PdfRoundTrip: holds only when no stripped image line (line 0, 2, 4, ... followed by a caption line) contains a double quote, for the same reason.
- PdfDocument.PdfMatchesGallery: needs every paired stripped line to be free of double quotes, because the gallery's captions are part of it.

## Findings

| source | as written | input that shows it | evidently intended | confidence | as-written member | corrected member |
|---|---|---|---|---|---|---|
| create_plot_html.py:23 | the PDF path is the HTML path with every `.html` replaced by `.pdf`; a path with no `.html` comes back unchanged, so the PDF written at line 140 replaces the gallery written at lines 81-82 | output path `gallery.htm` | a PDF path that ends in `.pdf` and never equals the HTML path | medium, not executed | PathNames.PdfPathOverwritesGallery | PathNames.IntendedPdfPath |
| create_plot_html.py:23 | every `.html` in the path is replaced, including one inside a directory name, so the PDF is written to a different directory, which may not exist | output path `site.html/plots.html`, giving `site.pdf/plots.pdf` | only the extension of the file name changes: `site.html/plots.pdf` | low, not executed | PathNames.PdfPathRenamesDirectory | PathNames.IntendedPdfPathKeepsDirectory |
