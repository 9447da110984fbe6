/**
 * Page assembly in `createPDF`: the page's blob images are drawn one per PDF
 * page, each scaled to fit the page and centred, with a progress percentage
 * sent after every drawn image.
 *
 * The jsPDF document is a sequence of pages; a page is blank or carries one
 * image. Whether a canvas context could be obtained for an image, and the
 * image's sizes, are inputs, as are the page dimensions.
 */
module Assembly {
  import opened Strings

  /** An `<img>` element: its `src`, its sizes, and whether the canvas
      created for it yielded a 2-D context. */
  datatype Image = Image(src: string, naturalWidth: nat, naturalHeight: nat,
                         width: nat, height: nat, hasContext: bool)

  /** Where and how large one image is placed. `Unsized` is the placement of
      an image whose canvas is 0 by 0: the scale is infinite and the fitted
      sizes are not numbers. */
  datatype Geometry = Fitted(x: real, y: real, w: real, h: real) | Unsized

  /** A page of the document: blank, or holding the image at `index` of the
      blob images. */
  datatype Page = Blank | Picture(index: nat, geometry: Geometry)

  /** `filter((img) => /^blob:/.test(img.src))`: the blob images, in document order. */
  function BlobImages(images: seq<Image>): (r: seq<Image>)
    ensures |r| <= |images|
    ensures forall x :: x in r <==> x in images && StartsWith(x.src, "blob:")
  {
    if images == [] then []
    else if StartsWith(images[0].src, "blob:") then [images[0]] + BlobImages(images[1..])
    else BlobImages(images[1..])
  }

  /** Filtering the blob images again keeps them all. */
  lemma {:induction false} BlobImagesIdempotent(images: seq<Image>)
    ensures BlobImages(BlobImages(images)) == BlobImages(images)
  {
    if images != [] {
      BlobImagesIdempotent(images[1..]);
    }
  }

  /** `img.naturalWidth || img.width` */
  function CanvasWidth(img: Image): (w: nat)
    ensures img.naturalWidth != 0 ==> w == img.naturalWidth
    ensures img.naturalWidth == 0 ==> w == img.width
  {
    if img.naturalWidth != 0 then img.naturalWidth else img.width
  }

  /** `img.naturalHeight || img.height` */
  function CanvasHeight(img: Image): (h: nat)
    ensures img.naturalHeight != 0 ==> h == img.naturalHeight
    ensures img.naturalHeight == 0 ==> h == img.height
  {
    if img.naturalHeight != 0 then img.naturalHeight else img.height
  }

  function Min(a: real, b: real): real
  {
    if a <= b then a else b
  }

  /** The fit-to-page layout: scale by the smaller of the two page/canvas
      ratios, then centre. A zero side divides to an infinite ratio, so the
      other side decides; both zero gives `Unsized`. */
  function Fit(cw: nat, ch: nat, pw: real, ph: real): (g: Geometry)
    requires pw > 0.0 && ph > 0.0
    ensures g.Unsized? <==> cw == 0 && ch == 0
    ensures g.Fitted? ==> 0.0 <= g.w <= pw && 0.0 <= g.h <= ph
    ensures g.Fitted? ==> g.x >= 0.0 && g.y >= 0.0
    ensures g.Fitted? ==> g.x + g.w + g.x == pw && g.y + g.h + g.y == ph
    ensures g.Fitted? ==> g.w * (ch as real) == g.h * (cw as real)
    ensures g.Fitted? && cw > 0 && ch > 0 ==> g.w == pw || g.h == ph
  {
    if cw == 0 && ch == 0 then Unsized
    else
      var ratio := if cw == 0 then ph / ch as real
                   else if ch == 0 then pw / cw as real
                   else Min(pw / cw as real, ph / ch as real);
      var fw := cw as real * ratio;
      var fh := ch as real * ratio;
      FitBounds(cw as real, ch as real, pw, ph, ratio);
      Fitted((pw - fw) / 2.0, (ph - fh) / 2.0, fw, fh)
  }

  /** The scaled sizes stay within the page and one of them reaches it. */
  lemma FitBounds(cw: real, ch: real, pw: real, ph: real, ratio: real)
    requires pw > 0.0 && ph > 0.0 && cw >= 0.0 && ch >= 0.0 && (cw > 0.0 || ch > 0.0)
    requires ratio == (if cw == 0.0 then ph / ch else if ch == 0.0 then pw / cw
                       else Min(pw / cw, ph / ch))
    ensures 0.0 <= cw * ratio <= pw && 0.0 <= ch * ratio <= ph
    ensures cw > 0.0 && ch > 0.0 ==> cw * ratio == pw || ch * ratio == ph
  {
    if cw == 0.0 {
      assert ch * (ph / ch) == ph;
    } else if ch == 0.0 {
      assert cw * (pw / cw) == pw;
    } else if pw / cw <= ph / ch {
      assert cw * (pw / cw) == pw;
      ScaleBelow(ch, pw / cw, ph / ch);
      assert ch * (ph / ch) == ph;
    } else {
      assert ch * (ph / ch) == ph;
      ScaleBelow(cw, ph / ch, pw / cw);
      assert cw * (pw / cw) == pw;
    }
  }

  lemma ScaleBelow(c: real, a: real, b: real)
    requires c > 0.0 && a >= 0.0 && a <= b
    ensures 0.0 <= c * a <= c * b
  {
  }

  /** The placement of one image on a page of the given size. */
  function Place(img: Image, pw: real, ph: real): (g: Geometry)
    requires pw > 0.0 && ph > 0.0
    ensures g.Unsized? <==> img.naturalWidth == 0 && img.width == 0 && img.naturalHeight == 0 && img.height == 0
    ensures g.Fitted? ==> 0.0 <= g.w <= pw && 0.0 <= g.h <= ph && g.x + g.w + g.x == pw && g.y + g.h + g.y == ph
  {
    Fit(CanvasWidth(img), CanvasHeight(img), pw, ph)
  }

  /** `Math.round(((i + 1) / n) * 100)`, in exact arithmetic: the percentage
      of images handled once image `i` is drawn, rounded half up. */
  function Progress(i: nat, n: nat): (p: nat)
    requires i < n
    ensures p <= 100
    ensures p as real - 0.5 <= 100.0 * (i + 1) as real / n as real < p as real + 0.5
  {
    var p := ((i + 1) * 200 + n) / (2 * n);
    RoundHalfUp(i + 1, n, p);
    p
  }

  /** The integer quotient `p` is the rounded value of `100 * m / n`. */
  lemma RoundHalfUp(m: nat, n: nat, p: nat)
    requires 0 < m <= n && p == (m * 200 + n) / (2 * n)
    ensures p <= 100
    ensures p as real - 0.5 <= 100.0 * m as real / n as real < p as real + 0.5
  {
    Euclid(m * 200 + n, 2 * n, p);
    if p > 100 {
      MulLe(2 * n, 101, p);
    }
    RealRound(m, n, p);
  }

  lemma Euclid(q: int, d: int, p: int)
    requires d > 0 && p == q / d
    ensures d * p <= q < d * p + d
  {
  }

  /** The integer bracket of the quotient, read over the reals. */
  lemma RealRound(m: nat, n: nat, p: nat)
    requires n > 0 && 2 * n * p <= m * 200 + n < 2 * n * p + 2 * n
    ensures p as real - 0.5 <= 100.0 * m as real / n as real < p as real + 0.5
  {
    var nr, pr, mr := n as real, p as real, m as real;
    assert 2.0 * nr * pr <= 200.0 * mr + nr < 2.0 * nr * (pr + 1.0) by {
      CastMul(2 * n, p);
    }
    Between(2.0 * nr, pr, 200.0 * mr + nr);
    var x := 100.0 * mr / nr;
    assert x * nr == 100.0 * mr;
    DivUnique(200.0 * mr + nr, 2.0 * nr, x + 0.5);
  }

  lemma CastMul(a: int, b: int)
    ensures (a * b) as real == a as real * b as real
  {
  }

  lemma DivUnique(a: real, k: real, y: real)
    requires k != 0.0 && k * y == a
    ensures a / k == y
  {
  }

  lemma MulNonneg(x: real, y: real)
    requires x >= 0.0 && y >= 0.0
    ensures x * y >= 0.0
  {
  }

  /** Dividing the bracket `k * a <= b < k * (a + 1)` by `k`. */
  lemma Between(k: real, a: real, b: real)
    requires k > 0.0 && k * a <= b < k * (a + 1.0)
    ensures a <= b / k < a + 1.0
  {
    var c := b / k;
    assert k * c == b;
    if c < a {
      MulNonneg(k, a - c);
    } else if c >= a + 1.0 {
      MulNonneg(k, c - (a + 1.0));
    }
  }

  lemma MulLe(d: int, x: int, y: int)
    requires d > 0 && x <= y
    ensures d * x <= d * y
  {
    assert d * y - d * x == d * (y - x);
  }

  lemma DivMonotone(a: nat, b: nat, d: nat)
    requires a <= b && d > 0
    ensures a / d <= b / d
  {
    var qa, qb := a / d, b / d;
    if qb < qa {
      MulLe(d, qb + 1, qa);
    }
  }

  /** Progress never falls as the loop moves on. */
  lemma ProgressMonotone(i: nat, j: nat, n: nat)
    requires i <= j < n
    ensures Progress(i, n) <= Progress(j, n)
  {
    DivMonotone((i + 1) * 200 + n, (j + 1) * 200 + n, 2 * n);
  }

  /** The last image drawn reports 100. */
  lemma ProgressComplete(n: nat)
    requires n > 0
    ensures Progress(n - 1, n) == 100
  {
    DivBracket(n * 200 + n, 2 * n, 100);
  }

  /** The quotient of `q` by `d` is the `p` that brackets it. */
  lemma DivBracket(q: int, d: int, p: int)
    requires d > 0 && d * p <= q < d * p + d
    ensures q / d == p
  {
    var k := q / d;
    Euclid(q, d, k);
    if k < p {
      MulLe(d, k + 1, p);
    } else if k > p {
      MulLe(d, p + 1, k);
    }
  }

  /** The indices of the images that get drawn: those whose canvas has a context. */
  function DrawnIndices(es: seq<Image>): (d: seq<nat>)
    ensures forall k :: 0 <= k < |d| ==> d[k] < |es| && es[d[k]].hasContext
  {
    if es == [] then []
    else DrawnIndices(es[..|es| - 1]) + (if es[|es| - 1].hasContext then [|es| - 1] else [])
  }

  /** The page that iteration `j` leaves: its image, or blank when the
      canvas had no context. */
  function PageAt(es: seq<Image>, j: nat, pw: real, ph: real): (p: Page)
    requires j < |es| && pw > 0.0 && ph > 0.0
    ensures p == Blank <==> !es[j].hasContext
    ensures p.Picture? ==> p.index == j && p.geometry == Place(es[j], pw, ph)
  {
    if es[j].hasContext then Picture(j, Place(es[j], pw, ph)) else Blank
  }

  /** The document as the loop builds it: jsPDF starts with one page; the
      first drawn image fills it, and every later iteration adds a page,
      which stays blank when the canvas had no context. */
  function PagesAsWritten(es: seq<Image>, pw: real, ph: real): (pages: seq<Page>)
    requires pw > 0.0 && ph > 0.0
    ensures |pages| >= 1
  {
    if es == [] then [Blank]
    else
      var before := es[..|es| - 1];
      if DrawnIndices(before) == [] then [PageAt(es, |es| - 1, pw, ph)]
      else PagesAsWritten(before, pw, ph) + [PageAt(es, |es| - 1, pw, ph)]
  }

  /** The document as evidently intended: one page per drawn image, in
      order, and only the initial blank page when nothing is drawn. */
  function PagesCorrected(es: seq<Image>, pw: real, ph: real): (pages: seq<Page>)
    requires pw > 0.0 && ph > 0.0
    ensures |pages| >= 1
  {
    if es == [] then [Blank]
    else
      var before := es[..|es| - 1];
      if !es[|es| - 1].hasContext then PagesCorrected(before, pw, ph)
      else if DrawnIndices(before) == [] then [PageAt(es, |es| - 1, pw, ph)]
      else PagesCorrected(before, pw, ph) + [PageAt(es, |es| - 1, pw, ph)]
  }

  /** The progress messages: one per drawn image, for its iteration. */
  function ProgressSent(es: seq<Image>, n: nat): (r: seq<nat>)
    requires |es| <= n
    ensures |r| == |DrawnIndices(es)|
    ensures forall k :: 0 <= k < |r| ==> r[k] <= 100
  {
    var d := DrawnIndices(es);
    seq(|d|, k requires 0 <= k < |d| => Progress(d[k], n))
  }

  /** One more iteration: its index is added when the image is drawn. */
  lemma DrawnIndicesStep(es: seq<Image>, i: nat)
    requires i < |es|
    ensures DrawnIndices(es[..i + 1]) == DrawnIndices(es[..i]) + (if es[i].hasContext then [i] else [])
  {
    assert es[..i + 1][..i] == es[..i];
  }

  /** One more iteration of the loop as written, per `PagesAsWritten`. */
  lemma PagesAsWrittenStep(es: seq<Image>, i: nat, pw: real, ph: real)
    requires i < |es| && pw > 0.0 && ph > 0.0
    ensures PagesAsWritten(es[..i + 1], pw, ph) ==
      if DrawnIndices(es[..i]) == [] then [PageAt(es, i, pw, ph)]
      else PagesAsWritten(es[..i], pw, ph) + [PageAt(es, i, pw, ph)]
  {
    assert es[..i + 1][..i] == es[..i];
  }

  /** One more iteration of the corrected loop, per `PagesCorrected`. */
  lemma PagesCorrectedStep(es: seq<Image>, i: nat, pw: real, ph: real)
    requires i < |es| && pw > 0.0 && ph > 0.0
    ensures PagesCorrected(es[..i + 1], pw, ph) ==
      if !es[i].hasContext then PagesCorrected(es[..i], pw, ph)
      else if DrawnIndices(es[..i]) == [] then [PageAt(es, i, pw, ph)]
      else PagesCorrected(es[..i], pw, ph) + [PageAt(es, i, pw, ph)]
  {
    assert es[..i + 1][..i] == es[..i];
  }

  /** Until an image is drawn, the corrected document is the initial blank page. */
  lemma {:induction false} NothingDrawnYet(es: seq<Image>, pw: real, ph: real)
    requires pw > 0.0 && ph > 0.0 && DrawnIndices(es) == []
    ensures PagesCorrected(es, pw, ph) == [Blank]
  {
    if es != [] {
      NothingDrawnYet(es[..|es| - 1], pw, ph);
    }
  }

  /** Until an image is drawn, the document as written is the initial blank page. */
  lemma AsWrittenNothingDrawnYet(es: seq<Image>, pw: real, ph: real)
    requires pw > 0.0 && ph > 0.0 && DrawnIndices(es) == []
    ensures PagesAsWritten(es, pw, ph) == [Blank]
  {
    if es != [] {
      assert !es[|es| - 1].hasContext;
    }
  }

  /** Drawing into a freshly added blank page. */
  lemma FillLast(s: seq<Page>, x: Page)
    ensures (s + [Blank])[|s| := x] == s + [x]
  {
  }

  /** One iteration of the loop as written, on the document: a blank page
      is added once an image has been drawn, then the image, if it is
      drawn, goes on the last page. */
  lemma AsWrittenIteration(es: seq<Image>, i: nat, pw: real, ph: real, added: seq<Page>)
    requires i < |es| && pw > 0.0 && ph > 0.0
    requires added == if DrawnIndices(es[..i]) != [] then PagesAsWritten(es[..i], pw, ph) + [Blank]
      else PagesAsWritten(es[..i], pw, ph)
    ensures added != []
    ensures !es[i].hasContext ==> PagesAsWritten(es[..i + 1], pw, ph) == added
    ensures es[i].hasContext ==>
      PagesAsWritten(es[..i + 1], pw, ph) == added[|added| - 1 := Picture(i, Place(es[i], pw, ph))]
  {
    PagesAsWrittenStep(es, i, pw, ph);
    var pages := PagesAsWritten(es[..i], pw, ph);
    if DrawnIndices(es[..i]) == [] {
      AsWrittenNothingDrawnYet(es[..i], pw, ph);
    } else if es[i].hasContext {
      FillLast(pages, Picture(i, Place(es[i], pw, ph)));
    }
  }

  /** An iteration of the corrected loop that draws its image: a blank
      page is added unless this is the first drawn image, which takes the
      initial one, and then the image goes on the last page. */
  lemma CorrectedIteration(es: seq<Image>, i: nat, pw: real, ph: real, added: seq<Page>)
    requires i < |es| && pw > 0.0 && ph > 0.0 && es[i].hasContext
    requires added == if DrawnIndices(es[..i]) != [] then PagesCorrected(es[..i], pw, ph) + [Blank]
      else PagesCorrected(es[..i], pw, ph)
    ensures added != []
    ensures PagesCorrected(es[..i + 1], pw, ph) == added[|added| - 1 := Picture(i, Place(es[i], pw, ph))]
  {
    PagesCorrectedStep(es, i, pw, ph);
    if DrawnIndices(es[..i]) == [] {
      NothingDrawnYet(es[..i], pw, ph);
    } else {
      FillLast(PagesCorrected(es[..i], pw, ph), Picture(i, Place(es[i], pw, ph)));
    }
  }

  /** One more iteration's progress message, when the image is drawn. */
  lemma ProgressSentStep(es: seq<Image>, i: nat, n: nat)
    requires i < |es| <= n
    ensures ProgressSent(es[..i + 1], n) ==
      ProgressSent(es[..i], n) + (if es[i].hasContext then [Progress(i, n)] else [])
  {
    DrawnIndicesStep(es, i);
  }

  /** The page loop as written (`if (processedImages > 0) pdf.addPage()`
      before the context check): the document it builds, the progress it
      sends and the images it counts. */
  method AssembleAsWritten(elements: seq<Image>, pw: real, ph: real)
    returns (pages: seq<Page>, progress: seq<nat>, processedImages: nat)
    requires pw > 0.0 && ph > 0.0
    ensures pages == PagesAsWritten(elements, pw, ph)
    ensures progress == ProgressSent(elements, |elements|)
    ensures processedImages == |DrawnIndices(elements)|
  {
    pages := [Blank];
    progress := [];
    processedImages := 0;
    for i := 0 to |elements|
      invariant pages == PagesAsWritten(elements[..i], pw, ph)
      invariant progress == ProgressSent(elements[..i], |elements|)
      invariant processedImages == |DrawnIndices(elements[..i])|
    {
      ProgressSentStep(elements, i, |elements|);
      DrawnIndicesStep(elements, i);
      if processedImages > 0 {
        pages := pages + [Blank];
      }
      AsWrittenIteration(elements, i, pw, ph, pages);
      if !elements[i].hasContext {
        continue;
      }
      pages := pages[|pages| - 1 := Picture(i, Place(elements[i], pw, ph))];
      progress := progress + [Progress(i, |elements|)];
      processedImages := processedImages + 1;
    }
    assert elements[..|elements|] == elements;
  }

  /** The page loop with `addPage` moved after the context check: a page is
      added only for an image that is about to be drawn. */
  method AssemblePages(elements: seq<Image>, pw: real, ph: real)
    returns (pages: seq<Page>, progress: seq<nat>, processedImages: nat)
    requires pw > 0.0 && ph > 0.0
    ensures pages == PagesCorrected(elements, pw, ph)
    ensures progress == ProgressSent(elements, |elements|)
    ensures processedImages == |DrawnIndices(elements)|
  {
    pages := [Blank];
    progress := [];
    processedImages := 0;
    for i := 0 to |elements|
      invariant pages == PagesCorrected(elements[..i], pw, ph)
      invariant progress == ProgressSent(elements[..i], |elements|)
      invariant processedImages == |DrawnIndices(elements[..i])|
    {
      ProgressSentStep(elements, i, |elements|);
      DrawnIndicesStep(elements, i);
      if !elements[i].hasContext {
        PagesCorrectedStep(elements, i, pw, ph);
        continue;
      }
      if processedImages > 0 {
        pages := pages + [Blank];
      }
      CorrectedIteration(elements, i, pw, ph, pages);
      pages := pages[|pages| - 1 := Picture(i, Place(elements[i], pw, ph))];
      progress := progress + [Progress(i, |elements|)];
      processedImages := processedImages + 1;
    }
    assert elements[..|elements|] == elements;
  }

  /** The drawn indices come in increasing order. */
  lemma {:induction false} DrawnIndicesIncreasing(es: seq<Image>)
    ensures forall j, k :: 0 <= j < k < |DrawnIndices(es)| ==> DrawnIndices(es)[j] < DrawnIndices(es)[k]
  {
    if es != [] {
      DrawnIndicesIncreasing(es[..|es| - 1]);
    }
  }

  /** An image is drawn exactly when its canvas has a context. */
  lemma {:induction false} DrawnIndicesComplete(es: seq<Image>)
    ensures forall i :: 0 <= i < |es| ==> (i in DrawnIndices(es) <==> es[i].hasContext)
  {
    if es != [] {
      var before := es[..|es| - 1];
      DrawnIndicesComplete(before);
      assert forall i :: 0 <= i < |before| ==> before[i] == es[i];
    }
  }

  /** `processedImages > 0` at the top of iteration `i` exactly when some
      image before `i` was drawn: that is, from the iteration after the
      first drawn image on. */
  lemma ProcessedBefore(es: seq<Image>, i: nat)
    requires i <= |es|
    ensures DrawnIndices(es[..i]) != [] <==> DrawnIndices(es) != [] && DrawnIndices(es)[0] < i
  {
    var d, e := DrawnIndices(es), DrawnIndices(es[..i]);
    if e != [] {
      var j := e[0];
      assert es[..i][j] == es[j];
      DrawnAt(es, j);
      FirstDrawnIsLeast(es, j);
    }
    if d != [] && d[0] < i {
      assert es[..i][d[0]] == es[d[0]];
      DrawnAt(es[..i], d[0]);
    }
  }

  /** An image whose canvas has a context is among the drawn ones. */
  lemma {:induction false} DrawnAt(es: seq<Image>, j: nat)
    requires j < |es| && es[j].hasContext
    ensures j in DrawnIndices(es)
  {
    var before := es[..|es| - 1];
    if j < |es| - 1 {
      assert before[j] == es[j];
      DrawnAt(before, j);
    }
  }

  /** The first drawn index is the least one. */
  lemma FirstDrawnIsLeast(es: seq<Image>, j: nat)
    requires j in DrawnIndices(es)
    ensures DrawnIndices(es)[0] <= j
  {
    var d := DrawnIndices(es);
    DrawnIndicesIncreasing(es);
    var k :| 0 <= k < |d| && d[k] == j;
    if k > 0 {
      assert d[0] < d[k];
    }
  }

  /** The document as written: from the first drawn image on, one page per
      iteration, holding that iteration's image or left blank. */
  lemma {:induction false} PagesAsWrittenLayout(es: seq<Image>, pw: real, ph: real)
    requires pw > 0.0 && ph > 0.0 && DrawnIndices(es) != []
    ensures |PagesAsWritten(es, pw, ph)| == |es| - DrawnIndices(es)[0]
    ensures forall p :: 0 <= p < |PagesAsWritten(es, pw, ph)| ==>
      PagesAsWritten(es, pw, ph)[p] == PageAt(es, DrawnIndices(es)[0] + p, pw, ph)
  {
    LayoutUpTo(es, |es|, pw, ph);
    assert es[..|es|] == es;
  }

  /** The layout of the document as written after the first `i` iterations,
      once the first drawn image is among them. */
  lemma {:induction false} LayoutUpTo(es: seq<Image>, i: nat, pw: real, ph: real)
    requires pw > 0.0 && ph > 0.0 && DrawnIndices(es) != [] && DrawnIndices(es)[0] < i <= |es|
    ensures |PagesAsWritten(es[..i], pw, ph)| == i - DrawnIndices(es)[0]
    ensures forall p :: 0 <= p < |PagesAsWritten(es[..i], pw, ph)| ==>
      PagesAsWritten(es[..i], pw, ph)[p] == PageAt(es, DrawnIndices(es)[0] + p, pw, ph)
    decreases i
  {
    var d0 := DrawnIndices(es)[0];
    var j := i - 1;
    if j > d0 {
      NextPage(es, j, pw, ph);
      LayoutUpTo(es, j, pw, ph);
      AppendPage(es, d0, PagesAsWritten(es[..j], pw, ph), PagesAsWritten(es[..i], pw, ph), pw, ph);
    } else {
      FirstPage(es, j, pw, ph);
    }
  }

  /** Every iteration after the first drawn image adds a page. */
  lemma NextPage(es: seq<Image>, j: nat, pw: real, ph: real)
    requires pw > 0.0 && ph > 0.0
    requires DrawnIndices(es) != [] && DrawnIndices(es)[0] < j < |es|
    ensures PagesAsWritten(es[..j + 1], pw, ph) == PagesAsWritten(es[..j], pw, ph) + [PageAt(es, j, pw, ph)]
  {
    ProcessedBefore(es, j);
    PagesAsWrittenStep(es, j, pw, ph);
  }

  /** The iteration of the first drawn image fills the initial page. */
  lemma FirstPage(es: seq<Image>, j: nat, pw: real, ph: real)
    requires pw > 0.0 && ph > 0.0
    requires DrawnIndices(es) != [] && DrawnIndices(es)[0] == j && j < |es|
    ensures PagesAsWritten(es[..j + 1], pw, ph) == [PageAt(es, j, pw, ph)]
  {
    ProcessedBefore(es, j);
    PagesAsWrittenStep(es, j, pw, ph);
  }

  /** A layout from `d0` on, extended by the next page, is still a layout from `d0` on. */
  lemma AppendPage(es: seq<Image>, d0: nat, prev: seq<Page>, pages: seq<Page>, pw: real, ph: real)
    requires pw > 0.0 && ph > 0.0 && d0 + |prev| < |es|
    requires forall p :: 0 <= p < |prev| ==> prev[p] == PageAt(es, d0 + p, pw, ph)
    requires pages == prev + [PageAt(es, d0 + |prev|, pw, ph)]
    ensures forall p :: 0 <= p < |pages| ==> pages[p] == PageAt(es, d0 + p, pw, ph)
  {
  }

  /** The corrected document: page `k` holds the `k`-th drawn image. */
  lemma {:induction false} PagesCorrectedLayout(es: seq<Image>, pw: real, ph: real)
    requires pw > 0.0 && ph > 0.0 && DrawnIndices(es) != []
    ensures |PagesCorrected(es, pw, ph)| == |DrawnIndices(es)|
    ensures forall k :: 0 <= k < |DrawnIndices(es)| ==>
      PagesCorrected(es, pw, ph)[k] == Picture(DrawnIndices(es)[k], Place(es[DrawnIndices(es)[k]], pw, ph))
  {
    var n := |es|;
    var before := es[..n - 1];
    var d := DrawnIndices(es);
    if !es[n - 1].hasContext {
      PagesCorrectedLayout(before, pw, ph);
      forall k | 0 <= k < |d| ensures es[d[k]] == before[d[k]] {
      }
    } else if DrawnIndices(before) == [] {
      assert d == [n - 1];
    } else {
      PagesCorrectedLayout(before, pw, ph);
      var db := DrawnIndices(before);
      forall k | 0 <= k < |db| ensures es[d[k]] == before[d[k]] {
      }
    }
  }

  /** The corrected document has no blank page once anything is drawn. */
  lemma CorrectedHasNoBlank(es: seq<Image>, pw: real, ph: real)
    requires pw > 0.0 && ph > 0.0 && DrawnIndices(es) != []
    ensures Blank !in PagesCorrected(es, pw, ph)
  {
    PagesCorrectedLayout(es, pw, ph);
  }

  /** The document as written has a blank page for every image skipped
      after the first drawn one. */
  lemma SkippedImageLeavesBlank(es: seq<Image>, j: nat, pw: real, ph: real)
    requires pw > 0.0 && ph > 0.0 && DrawnIndices(es) != []
    requires DrawnIndices(es)[0] < j < |es| && !es[j].hasContext
    ensures j - DrawnIndices(es)[0] < |PagesAsWritten(es, pw, ph)|
    ensures PagesAsWritten(es, pw, ph)[j - DrawnIndices(es)[0]] == Blank
  {
    PagesAsWrittenLayout(es, pw, ph);
  }

  /** The progress messages rise with the loop and stay within 0..100. */
  lemma ProgressSentRising(es: seq<Image>, n: nat)
    requires |es| <= n
    ensures forall k :: 0 <= k < |ProgressSent(es, n)| ==> ProgressSent(es, n)[k] <= 100
    ensures forall j, k :: 0 <= j < k < |ProgressSent(es, n)| ==>
      ProgressSent(es, n)[j] <= ProgressSent(es, n)[k]
  {
    var d := DrawnIndices(es);
    DrawnIndicesIncreasing(es);
    forall j, k | 0 <= j < k < |d| ensures Progress(d[j], n) <= Progress(d[k], n) {
      ProgressMonotone(d[j], d[k], n);
    }
  }

  /** The last image, when drawn, reports 100. */
  lemma ProgressEndsAtHundred(es: seq<Image>)
    requires es != [] && es[|es| - 1].hasContext
    ensures ProgressSent(es, |es|)[|ProgressSent(es, |es|)| - 1] == 100
  {
    ProgressComplete(|es|);
  }

  /** Three blob images whose middle one gets no canvas context: the loop as
      written produces three pages, the middle one blank, for two drawn
      images; the corrected loop produces two pages. */
  lemma SkippedImageAddsBlankPage(a: Image, b: Image, c: Image, pw: real, ph: real)
    requires pw > 0.0 && ph > 0.0
    requires a.hasContext && !b.hasContext && c.hasContext
    ensures |DrawnIndices([a, b, c])| == 2
    ensures |PagesAsWritten([a, b, c], pw, ph)| == 3
    ensures PagesAsWritten([a, b, c], pw, ph)[1] == Blank
    ensures |PagesCorrected([a, b, c], pw, ph)| == 2
  {
    var es := [a, b, c];
    assert es[..1] == [a] && es[..2] == [a, b] && [a, b][..1] == [a] && [a][..0] == [];
    assert DrawnIndices([a]) == [0];
    assert DrawnIndices([a, b]) == [0];
    assert DrawnIndices(es) == [0, 2];
    PagesAsWrittenLayout(es, pw, ph);
    PagesCorrectedLayout(es, pw, ph);
  }
}
