/**
 * PDF URL discovery in the content script: `findPdfUrl` and the recursive
 * `findPdfInObject`. The document is given as the element lists that the
 * source's CSS selectors pick out, in document order; the strategies are
 * tried one after another and the first one that finds something wins.
 */
module Discovery {
  import opened Wrappers
  import opened Strings

  /** A value produced by `JSON.parse`. `JOther` stands for numbers and booleans.
      An object's members are listed in the order `for...in` visits them,
      with distinct keys. */
  datatype Json =
    | JNull
    | JOther
    | JString(s: string)
    | JArray(items: seq<Json>)
    | JObject(members: seq<(string, Json)>)

  /** `embed[type="application/pdf"]` / `object[type="application/pdf"]`:
      its `src` and `data` attributes (`None` when the attribute is absent). */
  datatype Embed = Embed(src: Option<string>, data: Option<string>)

  /** An anchor picked by the link selector: its resolved `href` and its `textContent`. */
  datatype Anchor = Anchor(href: string, text: string)

  /** An element carrying `data-pdf-url`, `data-download-url` or `data-src`. */
  datatype DataElement = DataElement(pdfUrl: Option<string>, downloadUrl: Option<string>, src: Option<string>)

  /** `window.location`. */
  datatype Location = Location(pathname: string, href: string)

  /** The parts of the document the strategies read. A JSON script whose
      text does not parse is `None`. */
  datatype Document = Document(
    iframes: seq<Option<string>>,
    embeds: seq<Embed>,
    anchors: seq<Anchor>,
    scripts: seq<Option<Json>>,
    dataElements: seq<DataElement>,
    location: Location)

  /** JavaScript truthiness of an attribute value: present and non-empty. */
  predicate Truthy(a: Option<string>)
  {
    a.Some? && a.value != ""
  }

  /** `a || b` on attribute values. */
  function Or(a: Option<string>, b: Option<string>): Option<string>
  {
    if Truthy(a) then a else b
  }

  // ---------------------------------------------------------------------
  // The search loop shared by every strategy: `for (const x of xs) { ... return ...; }`

  /** The first hit of `test` along `xs`, or `None` when nothing hits. */
  function FindFirst<T>(xs: seq<T>, test: T -> Option<string>): (r: Option<string>)
    ensures r.None? <==> forall i :: 0 <= i < |xs| ==> test(xs[i]).None?
    ensures r.Some? ==> exists i :: 0 <= i < |xs| && test(xs[i]) == r
                                    && forall j :: 0 <= j < i ==> test(xs[j]).None?
  {
    if xs == [] then None
    else if test(xs[0]).Some? then test(xs[0])
    else
      var r := FindFirst(xs[1..], test);
      assert forall i :: 1 <= i < |xs| ==> xs[i] == xs[1..][i - 1];
      r
  }

  /** The search returns the hit at the first position that hits. */
  lemma {:induction false} FindFirstAt<T>(xs: seq<T>, test: T -> Option<string>, i: nat)
    requires i < |xs| && test(xs[i]).Some?
    requires forall j :: 0 <= j < i ==> test(xs[j]).None?
    ensures FindFirst(xs, test) == test(xs[i])
  {
    if i > 0 {
      assert forall j :: 0 <= j < i - 1 ==> xs[1..][j] == xs[j + 1];
      FindFirstAt(xs[1..], test, i - 1);
    }
  }

  // ---------------------------------------------------------------------
  // Strategy 1: iframes (source/ContentScript/index.ts:21-31)

  /** The iframe test exactly as written: `endsWith(".pdf")`, `includes(".pdf")` or `includes("/pdf/")`. */
  predicate IframeMatches(src: Option<string>)
    ensures IframeMatches(src) ==> src.Some?
    ensures src.Some? && Contains(src.value, "/pdf/") ==> IframeMatches(src)
  {
    (Truthy(src) && EndsWith(src.value, ".pdf"))
    || (src.Some? && Contains(src.value, ".pdf"))
    || (src.Some? && Contains(src.value, "/pdf/"))
  }

  function IframeHit(src: Option<string>): Option<string>
  {
    if IframeMatches(src) then src else None
  }

  /** Strategy 1: the first iframe whose `src` passes the test. */
  function IframeStrategy(iframes: seq<Option<string>>): (r: Option<string>)
    ensures r.Some? ==> IframeMatches(r) && exists i :: 0 <= i < |iframes| && iframes[i] == r
  {
    FindFirst(iframes, IframeHit)
  }

  /** An iframe `src` that contains ".pdf" or "/pdf/". */
  predicate SrcMentionsPdf(src: Option<string>)
  {
    src.Some? && (Contains(src.value, ".pdf") || Contains(src.value, "/pdf/"))
  }

  /** The `endsWith(".pdf")` test adds nothing: an iframe matches exactly when
      its `src` contains ".pdf" or "/pdf/". */
  lemma IframeEndsWithSubsumed(src: Option<string>)
    ensures IframeMatches(src) <==> SrcMentionsPdf(src)
  {
    if Truthy(src) && EndsWith(src.value, ".pdf") {
      EndsWithContains(src.value, ".pdf");
    }
  }

  /** The iframe strategy returns the `src` of the first iframe whose `src`
      contains ".pdf" or "/pdf/", and nothing when there is none. */
  lemma IframeStrategyFirst(iframes: seq<Option<string>>, i: nat)
    requires i < |iframes| && SrcMentionsPdf(iframes[i])
    requires forall j :: 0 <= j < i ==> !SrcMentionsPdf(iframes[j])
    ensures IframeStrategy(iframes) == iframes[i]
  {
    IframeEndsWithSubsumed(iframes[i]);
    forall j | 0 <= j < i ensures IframeHit(iframes[j]).None? {
      IframeEndsWithSubsumed(iframes[j]);
    }
    FindFirstAt(iframes, IframeHit, i);
  }

  // ---------------------------------------------------------------------
  // Strategy 2: PDF embeds and objects (source/ContentScript/index.ts:33-41)

  /** `getAttribute("src") || getAttribute("data")`, returned when truthy. */
  function EmbedHit(e: Embed): Option<string>
  {
    var src := Or(e.src, e.data);
    if Truthy(src) then src else None
  }

  /** Strategy 2: the first embed with a truthy `src || data`. */
  function EmbedStrategy(embeds: seq<Embed>): (r: Option<string>)
    ensures r.Some? ==> Truthy(r) && exists i :: 0 <= i < |embeds| && Or(embeds[i].src, embeds[i].data) == r
  {
    FindFirst(embeds, EmbedHit)
  }

  /** The first embed with any non-empty `src` or `data` wins; its `src` is
      preferred, and no ".pdf" test is applied to either. */
  lemma EmbedStrategyFirst(embeds: seq<Embed>, i: nat)
    requires i < |embeds| && (Truthy(embeds[i].src) || Truthy(embeds[i].data))
    requires forall j :: 0 <= j < i ==> !Truthy(embeds[j].src) && !Truthy(embeds[j].data)
    ensures EmbedStrategy(embeds) == if Truthy(embeds[i].src) then embeds[i].src else embeds[i].data
  {
    FindFirstAt(embeds, EmbedHit, i);
  }

  // ---------------------------------------------------------------------
  // Strategies 3 and 4: anchors (source/ContentScript/index.ts:43-64)

  /** The link text speaks of downloading a PDF, or of saving. */
  predicate TextQualifies(text: string)
    ensures Contains(ToLower(text), "save") ==> TextQualifies(text)
    ensures TextQualifies(text) ==> Contains(ToLower(text), "pdf") || Contains(ToLower(text), "save")
  {
    var t := ToLower(text);
    (Contains(t, "pdf") && Contains(t, "download")) || Contains(t, "save")
  }

  function TextHit(a: Anchor): Option<string>
  {
    if TextQualifies(a.text) then Some(a.href) else None
  }

  /** The fallback test `href.endsWith(".pdf") || href.includes(".pdf")`. */
  predicate HrefQualifies(href: string)
  {
    EndsWith(href, ".pdf") || Contains(href, ".pdf")
  }

  function HrefHit(a: Anchor): Option<string>
  {
    if HrefQualifies(a.href) then Some(a.href) else None
  }

  /** Strategy 3: the `href` of the first anchor whose text qualifies. */
  function AnchorTextStrategy(anchors: seq<Anchor>): (r: Option<string>)
    ensures r.Some? ==> exists i :: 0 <= i < |anchors| && TextQualifies(anchors[i].text) && r.value == anchors[i].href
  {
    FindFirst(anchors, TextHit)
  }

  /** Strategy 4: the first anchor `href` that mentions ".pdf". */
  function AnchorHrefStrategy(anchors: seq<Anchor>): (r: Option<string>)
    ensures r.Some? ==> HrefQualifies(r.value) && exists i :: 0 <= i < |anchors| && r.value == anchors[i].href
  {
    FindFirst(anchors, HrefHit)
  }

  /** The fallback anchor test is just `includes(".pdf")`. */
  lemma HrefEndsWithSubsumed(href: string)
    ensures HrefQualifies(href) <==> Contains(href, ".pdf")
  {
    if EndsWith(href, ".pdf") {
      EndsWithContains(href, ".pdf");
    }
  }

  // ---------------------------------------------------------------------
  // Strategy 5: JSON script blocks (source/ContentScript/index.ts:66-110)

  /** `typeof value === "object"`: objects, arrays and `null`. */
  predicate IsObjectType(v: Json)
  {
    v.JNull? || v.JArray? || v.JObject?
  }

  /** The values `for (const key in obj)` visits, in order: an object's member
      values, an array's elements; nothing for anything else. */
  function Children(v: Json): (r: seq<Json>)
    ensures v.JArray? ==> r == v.items
    ensures v.JObject? ==> |r| == |v.members| && forall i :: 0 <= i < |r| ==> r[i] == v.members[i].1
    ensures !v.JArray? && !v.JObject? ==> r == []
  {
    match v
    case JArray(items) => items
    case JObject(members) => seq(|members|, i requires 0 <= i < |members| => members[i].1)
    case _ => []
  }

  /** The PDF address shape: ends with ".pdf" or contains ".pdf?". */
  predicate PdfLike(s: string)
  {
    EndsWith(s, ".pdf") || Contains(s, ".pdf?")
  }

  /** What the recursive scan accepts: a PDF address that is absolute
      (starts with "http") or root-relative (starts with "/"). */
  predicate ScanMatches(s: string)
  {
    PdfLike(s) && (StartsWith(s, "http") || StartsWith(s, "/"))
  }

  /** `findPdfInObject`: depth-first, in key order, the first string value that
      has the PDF address shape; `null` for anything that is not an object or array. */
  function FindPdfInObject(v: Json): (r: Option<string>)
    ensures r.Some? ==> ScanMatches(r.value)
    ensures !v.JArray? && !v.JObject? ==> r.None?
    decreases v, 1, 0
  {
    if !(v.JArray? || v.JObject?) then None else FindInChildren(v, 0)
  }

  /** The `for...in` loop of `findPdfInObject`, from the `k`-th visited value on. */
  function FindInChildren(v: Json, k: nat): (r: Option<string>)
    ensures r.Some? ==> ScanMatches(r.value)
    decreases v, 0, |Children(v)| - k
  {
    if k >= |Children(v)| then None
    else
      var value := Children(v)[k];
      if value.JString? && ScanMatches(value.s) then Some(value.s)
      else if IsObjectType(value) then
        var result := FindPdfInObject(value);
        if Truthy(result) then result else FindInChildren(v, k + 1)
      else FindInChildren(v, k + 1)
  }

  /** Reference order for the scan: every string value below `v`, depth first,
      in the order `for...in` visits them. */
  function Leaves(v: Json): seq<string>
    decreases v, 1, 0
  {
    match v
    case JString(s) => [s]
    case JArray(_) => LeavesFrom(v, 0)
    case JObject(_) => LeavesFrom(v, 0)
    case _ => []
  }

  function LeavesFrom(v: Json, k: nat): seq<string>
    decreases v, 0, |Children(v)| - k
  {
    if k >= |Children(v)| then [] else Leaves(Children(v)[k]) + LeavesFrom(v, k + 1)
  }

  /** The first string in `ss` with the scan's shape. */
  function FirstScanMatch(ss: seq<string>): (r: Option<string>)
    ensures r.None? <==> forall i :: 0 <= i < |ss| ==> !ScanMatches(ss[i])
    ensures r.Some? ==> exists i :: 0 <= i < |ss| && ss[i] == r.value && ScanMatches(ss[i])
                                    && forall j :: 0 <= j < i ==> !ScanMatches(ss[j])
  {
    if ss == [] then None
    else if ScanMatches(ss[0]) then Some(ss[0])
    else
      var r := FirstScanMatch(ss[1..]);
      FirstMatchTail(ss, r);
      r
  }

  /** The first match after a non-matching head is the first match of the whole. */
  lemma FirstMatchTail(ss: seq<string>, r: Option<string>)
    requires ss != [] && !ScanMatches(ss[0])
    requires r.None? <==> forall i :: 0 <= i < |ss[1..]| ==> !ScanMatches(ss[1..][i])
    requires r.Some? ==> exists i :: 0 <= i < |ss[1..]| && ss[1..][i] == r.value && ScanMatches(ss[1..][i])
                                      && forall j :: 0 <= j < i ==> !ScanMatches(ss[1..][j])
    ensures r.None? <==> forall i :: 0 <= i < |ss| ==> !ScanMatches(ss[i])
    ensures r.Some? ==> exists i :: 0 <= i < |ss| && ss[i] == r.value && ScanMatches(ss[i])
                                    && forall j :: 0 <= j < i ==> !ScanMatches(ss[j])
  {
    assert forall i :: 1 <= i < |ss| ==> ss[i] == ss[1..][i - 1];
    if r.Some? {
      var i :| 0 <= i < |ss[1..]| && ss[1..][i] == r.value && ScanMatches(ss[1..][i])
               && forall j :: 0 <= j < i ==> !ScanMatches(ss[1..][j]);
      assert forall j :: 0 <= j < i + 1 ==> !ScanMatches(ss[j]);
    }
  }

  /** Searching a concatenation: the first part is searched first. */
  lemma {:induction false} FirstScanMatchAppend(a: seq<string>, b: seq<string>)
    ensures FirstScanMatch(a + b) == if FirstScanMatch(a).Some? then FirstScanMatch(a) else FirstScanMatch(b)
  {
    if a != [] {
      assert (a + b)[1..] == a[1..] + b;
      FirstScanMatchAppend(a[1..], b);
    } else {
      assert a + b == b;
    }
  }

  /** The scan is exactly "the first matching string in depth-first key order":
      for any value that is not itself a string (a top-level string is not scanned). */
  lemma {:induction false} FindPdfInObjectIsFirstLeaf(v: Json)
    requires !v.JString?
    ensures FindPdfInObject(v) == FirstScanMatch(Leaves(v))
    decreases v, 1, 0
  {
    if v.JArray? || v.JObject? {
      FindInChildrenIsFirstLeaf(v, 0);
    }
  }

  lemma {:induction false} FindInChildrenIsFirstLeaf(v: Json, k: nat)
    ensures FindInChildren(v, k) == FirstScanMatch(LeavesFrom(v, k))
    decreases v, 0, |Children(v)| - k
  {
    if k < |Children(v)| {
      var value := Children(v)[k];
      var rest := LeavesFrom(v, k + 1);
      assert LeavesFrom(v, k) == Leaves(value) + rest;
      FindInChildrenIsFirstLeaf(v, k + 1);
      FirstScanMatchAppend(Leaves(value), rest);
      match value
      case JString(s) =>
        assert [s][1..] == [];
      case JArray(_) =>
        FindPdfInObjectIsFirstLeaf(value);
      case JObject(_) =>
        FindPdfInObjectIsFirstLeaf(value);
      case JNull =>
      case JOther =>
    }
  }

  /** Some string anywhere inside an object or array has the scan's shape
      (however deeply it is nested) exactly when the scan finds one, and what the
      scan finds is one of those nested strings. */
  lemma FindPdfInObjectComplete(v: Json)
    requires v.JArray? || v.JObject?
    ensures FindPdfInObject(v).Some? <==> exists i :: 0 <= i < |Leaves(v)| && ScanMatches(Leaves(v)[i])
    ensures FindPdfInObject(v).Some? ==> FindPdfInObject(v).value in Leaves(v)
  {
    FindPdfInObjectIsFirstLeaf(v);
  }

  /** What `data.<key>?.endsWith(".pdf")` does with a top-level field. */
  datatype FieldTest = FieldPdf(url: string) | FieldMiss | FieldThrows

  /** `data[key]`: the member with that key, if `data` is an object that has one. */
  function Lookup(data: Json, key: string): Option<Json>
  {
    match data
    case JObject(members) => LookupMember(members, key)
    case _ => None
  }

  function LookupMember(members: seq<(string, Json)>, key: string): (r: Option<Json>)
    ensures r.Some? <==> exists i :: 0 <= i < |members| && members[i].0 == key
    ensures r.Some? ==> exists i :: 0 <= i < |members| && members[i] == (key, r.value)
  {
    if members == [] then None
    else if members[0].0 == key then Some(members[0].1)
    else
      var r := LookupMember(members[1..], key);
      assert forall i :: 1 <= i < |members| ==> members[i] == members[1..][i - 1];
      r
  }

  /** Optional chaining stops on undefined and null; a string is tested with
      `endsWith`; any other value has no `endsWith` method and the call throws. */
  function TestField(data: Json, key: string): (r: FieldTest)
    ensures r.FieldPdf? <==> exists u :: Lookup(data, key) == Some(JString(u)) && EndsWith(u, ".pdf")
    ensures r.FieldPdf? ==> Lookup(data, key) == Some(JString(r.url))
    ensures r.FieldThrows? <==> Lookup(data, key).Some? && !Lookup(data, key).value.JNull?
                                && !Lookup(data, key).value.JString?
  {
    match Lookup(data, key)
    case None => FieldMiss
    case Some(JNull) => FieldMiss
    case Some(JString(s)) => if EndsWith(s, ".pdf") then FieldPdf(s) else FieldMiss
    case Some(_) => FieldThrows
  }

  /** The body of the `try` for one parsed block: `contentUrl`, then
      `downloadUrl`, then the recursive scan. A thrown error (reading a field of
      `null`, or calling `endsWith` on a non-string) skips the block. */
  function ScanBlock(data: Json): (r: Option<string>)
    ensures data.JNull? ==> r.None?
    ensures r.Some? ==> PdfLike(r.value)
    ensures r.Some? ==> r.value != ""
    ensures !data.JNull? && TestField(data, "contentUrl").FieldMiss? && TestField(data, "downloadUrl").FieldMiss? ==>
      r == FindPdfInObject(data)
  {
    if data.JNull? then None
    else match TestField(data, "contentUrl")
      case FieldPdf(u) => Some(u)
      case FieldThrows => None
      case FieldMiss =>
        match TestField(data, "downloadUrl")
        case FieldPdf(u) => Some(u)
        case FieldThrows => None
        case FieldMiss =>
          var pdfUrl := FindPdfInObject(data);
          if Truthy(pdfUrl) then pdfUrl else None
  }

  /** A script that failed to parse is skipped like one whose body threw. */
  function BlockHit(script: Option<Json>): Option<string>
  {
    match script
    case None => None
    case Some(data) => ScanBlock(data)
  }

  /** Strategy 5: the first JSON script block that yields an address. */
  function JsonStrategy(scripts: seq<Option<Json>>): (r: Option<string>)
    ensures r.Some? ==> r.value != "" && exists i :: 0 <= i < |scripts| && BlockHit(scripts[i]) == r
    ensures r.None? <==> forall i :: 0 <= i < |scripts| ==> BlockHit(scripts[i]).None?
  {
    FindFirst(scripts, BlockHit)
  }

  /** The first block that yields an address decides the JSON strategy. */
  lemma JsonStrategyFirst(scripts: seq<Option<Json>>, i: nat)
    requires i < |scripts| && BlockHit(scripts[i]).Some?
    requires forall j :: 0 <= j < i ==> BlockHit(scripts[j]).None?
    ensures JsonStrategy(scripts) == BlockHit(scripts[i])
  {
    FindFirstAt(scripts, BlockHit, i);
  }

  /** Every address the JSON strategy yields has the PDF shape: ends with
      ".pdf" or contains ".pdf?". */
  lemma JsonStrategyShape(scripts: seq<Option<Json>>)
    ensures JsonStrategy(scripts).Some? ==> PdfLike(JsonStrategy(scripts).value)
  {
    var r := JsonStrategy(scripts);
    if r.Some? {
      var i :| 0 <= i < |scripts| && BlockHit(scripts[i]) == r;
      var data := scripts[i].value;
      if data.JObject? && TestField(data, "contentUrl").FieldPdf? {
      } else if data.JObject? && TestField(data, "downloadUrl").FieldPdf? {
      } else {
        assert Truthy(FindPdfInObject(data));
      }
    }
  }

  /** A top-level `contentUrl` ending in ".pdf" is taken before `downloadUrl`
      and before anything the scan would find. */
  lemma ContentUrlFirst(members: seq<(string, Json)>, url: string)
    requires LookupMember(members, "contentUrl") == Some(JString(url)) && EndsWith(url, ".pdf")
    ensures ScanBlock(JObject(members)) == Some(url)
  {
  }

  /** With no usable top-level `contentUrl`, a top-level `downloadUrl` ending
      in ".pdf" is taken before anything the scan would find. */
  lemma DownloadUrlSecond(members: seq<(string, Json)>, url: string)
    requires TestField(JObject(members), "contentUrl") == FieldMiss
    requires LookupMember(members, "downloadUrl") == Some(JString(url)) && EndsWith(url, ".pdf")
    ensures ScanBlock(JObject(members)) == Some(url)
  {
  }

  /** With no usable top-level `contentUrl`, a top-level `downloadUrl` that is a
      number, boolean, array or object makes `endsWith` throw: the block is skipped. */
  lemma DownloadUrlNotStringSkipsBlock(members: seq<(string, Json)>, v: Json)
    requires TestField(JObject(members), "contentUrl") == FieldMiss
    requires LookupMember(members, "downloadUrl") == Some(v) && !v.JNull? && !v.JString?
    ensures ScanBlock(JObject(members)) == None
  {
  }

  /** A top-level `contentUrl` that is a number, boolean, array or object makes
      `endsWith` throw: the whole block is skipped, even if it holds a PDF address. */
  lemma ContentUrlNotStringSkipsBlock(members: seq<(string, Json)>, v: Json)
    requires LookupMember(members, "contentUrl") == Some(v) && !v.JNull? && !v.JString?
    ensures ScanBlock(JObject(members)) == None
  {
  }

  /** A PDF address nested inside the block is found only if it passes the
      scan's prefix test: a relative `downloadUrl` one level down, such as
      "files/x.pdf", is not returned, although it ends with ".pdf". */
  lemma NestedRelativeAddressIgnored(s: string)
    requires !StartsWith(s, "http") && !StartsWith(s, "/")
    ensures ScanBlock(JObject([("a", JObject([("downloadUrl", JString(s))]))])) == None
  {
    var inner := JObject([("downloadUrl", JString(s))]);
    var outer := JObject([("a", inner)]);
    assert Children(inner) == [JString(s)];
    assert FindInChildren(inner, 1) == None;
    assert FindPdfInObject(inner) == None;
    assert Children(outer) == [inner];
    assert FindInChildren(outer, 1) == None;
    assert FindPdfInObject(outer) == None;
  }

  /** Blocks that fail to parse, or whose body throws, are passed over and
      later blocks are still examined. */
  lemma SkippedBlocksAreTransparent(skipped: seq<Option<Json>>, rest: seq<Option<Json>>)
    requires forall i :: 0 <= i < |skipped| ==> BlockHit(skipped[i]).None?
    ensures JsonStrategy(skipped + rest) == JsonStrategy(rest)
  {
    var all := skipped + rest;
    if JsonStrategy(rest).Some? {
      var i :| 0 <= i < |rest| && BlockHit(rest[i]) == JsonStrategy(rest)
                && forall j :: 0 <= j < i ==> BlockHit(rest[j]).None?;
      assert all[|skipped| + i] == rest[i];
      forall j | 0 <= j < |skipped| + i ensures BlockHit(all[j]).None? {
        if j >= |skipped| { assert all[j] == rest[j - |skipped|]; }
      }
      FindFirstAt(all, BlockHit, |skipped| + i);
    } else {
      forall j | 0 <= j < |all| ensures BlockHit(all[j]).None? {
        if j >= |skipped| { assert all[j] == rest[j - |skipped|]; }
      }
    }
  }

  // ---------------------------------------------------------------------
  // Strategy 6: data attributes (source/ContentScript/index.ts:112-127)

  /** `data-pdf-url || data-download-url || data-src`. */
  function DataUrl(el: DataElement): (r: Option<string>)
    ensures Truthy(el.pdfUrl) ==> r == el.pdfUrl
    ensures !Truthy(el.pdfUrl) && Truthy(el.downloadUrl) ==> r == el.downloadUrl
    ensures !Truthy(el.pdfUrl) && !Truthy(el.downloadUrl) ==> r == el.src
  {
    Or(el.pdfUrl, Or(el.downloadUrl, el.src))
  }

  function DataHit(el: DataElement): Option<string>
  {
    var url := DataUrl(el);
    if Truthy(url) && PdfLike(url.value) then url else None
  }

  /** Strategy 6: the first element whose chosen data attribute has the PDF shape. */
  function DataStrategy(elements: seq<DataElement>): (r: Option<string>)
    ensures r.Some? ==> Truthy(r) && exists i :: 0 <= i < |elements| && DataUrl(elements[i]) == r
    ensures r.None? <==> forall i :: 0 <= i < |elements| ==> DataHit(elements[i]).None?
  {
    FindFirst(elements, DataHit)
  }

  /** The first element whose chosen attribute has the PDF shape decides the
      data-attribute strategy. */
  lemma DataStrategyFirst(elements: seq<DataElement>, i: nat)
    requires i < |elements| && DataHit(elements[i]).Some?
    requires forall j :: 0 <= j < i ==> DataHit(elements[j]).None?
    ensures DataStrategy(elements) == DataUrl(elements[i])
  {
    FindFirstAt(elements, DataHit, i);
  }

  /** Only the first non-empty attribute of an element is looked at: the
      element is returned exactly when that one has the PDF shape. */
  lemma DataHitFirstAttribute(el: DataElement)
    ensures DataHit(el).Some? <==>
      if Truthy(el.pdfUrl) then PdfLike(el.pdfUrl.value)
      else if Truthy(el.downloadUrl) then PdfLike(el.downloadUrl.value)
      else Truthy(el.src) && PdfLike(el.src.value)
    ensures DataHit(el).Some? ==> DataHit(el) == DataUrl(el)
  {
  }

  /** Every address the data-attribute strategy yields has the PDF shape and is
      one element's first non-empty attribute. */
  lemma DataStrategyShape(elements: seq<DataElement>)
    ensures DataStrategy(elements).Some? ==>
      PdfLike(DataStrategy(elements).value)
      && exists i :: 0 <= i < |elements| && DataUrl(elements[i]) == DataStrategy(elements)
  {
  }

  // ---------------------------------------------------------------------
  // Strategy 7 and the chain (source/ContentScript/index.ts:20-134)

  /** Strategy 7: the page's own address when its path ends with ".pdf". */
  function LocationStrategy(loc: Location): (r: Option<string>)
    ensures r.Some? <==> EndsWith(loc.pathname, ".pdf")
    ensures r.Some? ==> r.value == loc.href
  {
    if EndsWith(loc.pathname, ".pdf") then Some(loc.href) else None
  }

  /** `findPdfUrl`: the strategies in their fixed order; the first one that
      yields a value decides the result. */
  function FindPdfUrl(doc: Document): (r: Option<string>)
    ensures IframeStrategy(doc.iframes).Some? ==> r == IframeStrategy(doc.iframes)
    ensures r.None? ==> LocationStrategy(doc.location).None? && JsonStrategy(doc.scripts).None?
  {
    var iframe := IframeStrategy(doc.iframes);
    if iframe.Some? then iframe else
    var embed := EmbedStrategy(doc.embeds);
    if embed.Some? then embed else
    var text := AnchorTextStrategy(doc.anchors);
    if text.Some? then text else
    var href := AnchorHrefStrategy(doc.anchors);
    if href.Some? then href else
    var json := JsonStrategy(doc.scripts);
    if json.Some? then json else
    var data := DataStrategy(doc.dataElements);
    if data.Some? then data else
    LocationStrategy(doc.location)
  }

  /** The strategies' results, in the order they are tried. */
  function StrategyResults(doc: Document): seq<Option<string>>
  {
    [IframeStrategy(doc.iframes), EmbedStrategy(doc.embeds),
     AnchorTextStrategy(doc.anchors), AnchorHrefStrategy(doc.anchors),
     JsonStrategy(doc.scripts), DataStrategy(doc.dataElements),
     LocationStrategy(doc.location)]
  }

  /** The result is the result of the first strategy that yields anything, and
      there is none only when every strategy misses. */
  lemma FindPdfUrlFirstStrategy(doc: Document)
    ensures FindPdfUrl(doc).None? <==> forall k :: 0 <= k < |StrategyResults(doc)| ==> StrategyResults(doc)[k].None?
    ensures FindPdfUrl(doc).Some? ==>
      exists k :: 0 <= k < |StrategyResults(doc)| && StrategyResults(doc)[k] == FindPdfUrl(doc)
                  && forall j :: 0 <= j < k ==> StrategyResults(doc)[j].None?
  {
    var rs := StrategyResults(doc);
    var r := FindPdfUrl(doc);
    var k := if rs[0].Some? then 0 else if rs[1].Some? then 1 else if rs[2].Some? then 2
      else if rs[3].Some? then 3 else if rs[4].Some? then 4 else if rs[5].Some? then 5 else 6;
    assert rs[k] == r && forall j :: 0 <= j < k ==> rs[j].None?;
    FirstHit(rs, k, r);
  }

  /** Position `k` holds the first result of `rs`, and `r` is it. */
  lemma FirstHit(rs: seq<Option<string>>, k: nat, r: Option<string>)
    requires k < |rs| && rs[k] == r && forall j :: 0 <= j < k ==> rs[j].None?
    requires k < |rs| - 1 ==> r.Some?
    ensures r.None? <==> forall j :: 0 <= j < |rs| ==> rs[j].None?
    ensures r.Some? ==> exists k :: 0 <= k < |rs| && rs[k] == r && forall j :: 0 <= j < k ==> rs[j].None?
  {
  }

  /** An iframe hit wins over any embed, anchor, JSON, data-attribute or
      location match. */
  lemma IframeWins(doc: Document, i: nat)
    requires i < |doc.iframes| && SrcMentionsPdf(doc.iframes[i])
    requires forall j :: 0 <= j < i ==> !SrcMentionsPdf(doc.iframes[j])
    ensures FindPdfUrl(doc) == doc.iframes[i]
  {
    IframeStrategyFirst(doc.iframes, i);
  }

  /** With no iframe or embed hit, an anchor whose text qualifies is returned
      ahead of every anchor that merely has ".pdf" in its `href`, wherever those
      stand in the document. */
  lemma AnchorTextBeatsHref(doc: Document, i: nat)
    requires IframeStrategy(doc.iframes).None? && EmbedStrategy(doc.embeds).None?
    requires i < |doc.anchors| && TextQualifies(doc.anchors[i].text)
    requires forall j :: 0 <= j < i ==> !TextQualifies(doc.anchors[j].text)
    ensures FindPdfUrl(doc) == Some(doc.anchors[i].href)
  {
    FindFirstAt(doc.anchors, TextHit, i);
  }

  /** Failing every text match, the first anchor whose `href` contains ".pdf"
      is returned. */
  lemma AnchorHrefFallback(doc: Document, i: nat)
    requires IframeStrategy(doc.iframes).None? && EmbedStrategy(doc.embeds).None?
    requires forall j :: 0 <= j < |doc.anchors| ==> !TextQualifies(doc.anchors[j].text)
    requires i < |doc.anchors| && Contains(doc.anchors[i].href, ".pdf")
    requires forall j :: 0 <= j < i ==> !Contains(doc.anchors[j].href, ".pdf")
    ensures FindPdfUrl(doc) == Some(doc.anchors[i].href)
  {
    assert AnchorTextStrategy(doc.anchors).None?;
    HrefEndsWithSubsumed(doc.anchors[i].href);
    forall j | 0 <= j < i ensures HrefHit(doc.anchors[j]).None? {
      HrefEndsWithSubsumed(doc.anchors[j].href);
    }
    FindFirstAt(doc.anchors, HrefHit, i);
  }

  /** When everything else misses, the page's own address is returned exactly
      when its path ends with ".pdf". */
  lemma LocationFallback(doc: Document)
    requires forall k :: 0 <= k < 6 ==> StrategyResults(doc)[k].None?
    ensures FindPdfUrl(doc) == if EndsWith(doc.location.pathname, ".pdf") then Some(doc.location.href) else None
  {
    var rs := StrategyResults(doc);
    assert rs[0].None? && rs[1].None? && rs[2].None? && rs[3].None? && rs[4].None? && rs[5].None?;
  }
}
