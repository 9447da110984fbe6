/**
 * The content script's run of `createPDF` and the two listeners that start
 * it. A flag, `processed`, keeps the automatic run from repeating; the
 * manual message clears it and forces a run past the enabled and exclusion
 * gates. A run either hands a discovered PDF address to the background
 * script or assembles the page's blob images into a document.
 */
module Trigger {
  import opened Wrappers
  import opened Strings
  import opened Settings
  import opened Discovery
  import opened Exclusion
  import opened Filename
  import opened Assembly

  /** The one script address the trusted-types policy lets through. */
  const LibraryUrl: string := "https://cdnjs.cloudflare.com/ajax/libs/jspdf/2.5.1/jspdf.umd.min.js"

  /** `createScriptURL` of the "pdf-policy" policy: the library's address
      passes unchanged, anything else throws "Unauthorized URL". */
  function CreateScriptUrl(s: string): (r: Option<string>)
    ensures r.Some? <==> s == LibraryUrl
    ensures r.Some? ==> r.value == s
  {
    if s == LibraryUrl then Some(s) else None
  }

  /** The `src` given to the library's script tag, with or without trusted
      types: always the library's address, since the policy admits it. */
  function ScriptSource(trustedTypes: bool): (r: Option<string>)
    ensures r == Some(LibraryUrl)
  {
    if trustedTypes then CreateScriptUrl(LibraryUrl) else Some(LibraryUrl)
  }

  /** What a run reads from its surroundings: the stored `enabled` entry and
      settings, the page's host name, document, `<img>` elements and title,
      whether the library's script loads, and the PDF page size. */
  datatype Env = Env(enabled: Option<bool>, settings: Option<Settings>, hostname: string,
                     doc: Document, images: seq<Image>, title: string,
                     libraryLoads: bool, pageWidth: real, pageHeight: real)

  /** Why and how a run ended. */
  datatype Outcome =
    | AlreadyProcessed
    | Disabled
    | Excluded
    | DirectPdf(url: string)
    | LoadFailed
    | NoBlobImages
    | NothingDrawn
    | Created(fileName: string, pages: seq<Page>, progress: seq<nat>)

  /** The value the run's promise settles with: `true` or `false`, or none
      when it is rejected because the library failed to load. */
  function Settled(o: Outcome): (r: Option<bool>)
    ensures r == Some(true) <==> o.DirectPdf? || o.Created?
    ensures r.None? <==> o == LoadFailed
  {
    match o
    case LoadFailed => None
    case DirectPdf(_) => Some(true)
    case Created(_, _, _) => Some(true)
    case _ => Some(false)
  }

  /** The gates a non-forced run must pass: the extension is not switched off
      (`enabled === false`) and the page is not excluded. */
  predicate GatesPass(env: Env)
    ensures GatesPass(env) ==> env.enabled != Some(false)
    ensures env.settings.None? || env.settings.value.exclusionDomains == "" ==>
      (GatesPass(env) <==> env.enabled != Some(false))
  {
    env.enabled != Some(false) && !ShouldExclude(env.settings, env.hostname)
  }

  /** What happens once the gates are passed: a truthy discovered address is
      handed over; otherwise the document is assembled. */
  function RunOutcome(env: Env): (r: Outcome)
    requires env.pageWidth > 0.0 && env.pageHeight > 0.0
    ensures r.DirectPdf? ==> r.url != "" && FindPdfUrl(env.doc) == Some(r.url)
    ensures r.Created? ==> !Truthy(FindPdfUrl(env.doc)) && env.libraryLoads
    ensures r != AlreadyProcessed && r != Disabled && r != Excluded
  {
    var url := FindPdfUrl(env.doc);
    if url.Some? && url.value != "" then DirectPdf(url.value) else AssemblyOutcome(env)
  }

  /** The library's `onload` path: the blob images are drawn by the page
      loop as written, and a document is saved when at least one was. */
  function AssemblyOutcome(env: Env): (r: Outcome)
    requires env.pageWidth > 0.0 && env.pageHeight > 0.0
    ensures r == LoadFailed <==> !env.libraryLoads
    ensures r == NoBlobImages <==> env.libraryLoads && BlobImages(env.images) == []
    ensures r.Created? <==> env.libraryLoads && DrawnIndices(BlobImages(env.images)) != []
    ensures r.Created? ==> r.pages == PagesAsWritten(BlobImages(env.images), env.pageWidth, env.pageHeight)
  {
    if !env.libraryLoads then LoadFailed
    else
      var blobs := BlobImages(env.images);
      if blobs == [] then NoBlobImages
      else if DrawnIndices(blobs) == [] then NothingDrawn
      else Created(NameFor(env.settings, env.title),
                   PagesAsWritten(blobs, env.pageWidth, env.pageHeight),
                   ProgressSent(blobs, |blobs|))
  }

  /** The run as evidently intended: the same, except that a saved document
      has the pages of the corrected loop. */
  function IntendedAssemblyOutcome(env: Env): (r: Outcome)
    requires env.pageWidth > 0.0 && env.pageHeight > 0.0
    ensures r.Created? <==> AssemblyOutcome(env).Created?
    ensures r.Created? ==> r.pages == PagesCorrected(BlobImages(env.images), env.pageWidth, env.pageHeight)
    ensures !r.Created? ==> r == AssemblyOutcome(env)
  {
    var o := AssemblyOutcome(env);
    if o.Created? then o.(pages := PagesCorrected(BlobImages(env.images), env.pageWidth, env.pageHeight))
    else o
  }

  /** The content script's state: whether a run has already got past the gates. */
  class ContentScript {
    var processed: bool

    constructor()
      ensures !processed
    {
      processed := false;
    }

    /** `createPDF(force)`. */
    method CreatePdf(force: bool, env: Env) returns (outcome: Outcome)
      requires env.pageWidth > 0.0 && env.pageHeight > 0.0
      modifies this
      ensures old(processed) && !force ==> outcome == AlreadyProcessed && processed
      ensures !old(processed) && !force && env.enabled == Some(false) ==>
        outcome == Disabled && !processed
      ensures (!old(processed) && !force && env.enabled != Some(false) &&
                ShouldExclude(env.settings, env.hostname)) ==> outcome == Excluded && !processed
      ensures force || (!old(processed) && GatesPass(env)) ==> outcome == RunOutcome(env) && processed
    {
      if processed && !force {
        return AlreadyProcessed;
      }
      if !force {
        if env.enabled == Some(false) {
          return Disabled;
        }
        if ShouldExclude(env.settings, env.hostname) {
          return Excluded;
        }
      }
      processed := true;

      var pdfUrl := FindPdfUrl(env.doc);
      if pdfUrl.Some? && pdfUrl.value != "" {
        return DirectPdf(pdfUrl.value);
      }
      if !env.libraryLoads {
        return LoadFailed;
      }
      var elements := BlobImages(env.images);
      if |elements| == 0 {
        return NoBlobImages;
      }
      var pages, progress, processedImages := AssembleAsWritten(elements, env.pageWidth, env.pageHeight);
      if processedImages > 0 {
        var fileName := GenerateFilename(env.settings, env.title);
        outcome := Created(fileName, pages, progress);
      } else {
        outcome := NothingDrawn;
      }
    }

    /** The `manualDownload` message: clear the flag, then force a run. */
    method OnManualDownload(env: Env) returns (outcome: Outcome)
      requires env.pageWidth > 0.0 && env.pageHeight > 0.0
      modifies this
      ensures outcome == RunOutcome(env) && processed
    {
      processed := false;
      outcome := CreatePdf(true, env);
    }

    /** The automatic run once the page has loaded, unless the stored
        `enabled` entry is `false`. */
    method OnPageLoad(env: Env) returns (outcome: Option<Outcome>)
      requires env.pageWidth > 0.0 && env.pageHeight > 0.0
      modifies this
      ensures env.enabled == Some(false) ==> outcome.None? && processed == old(processed)
      ensures env.enabled != Some(false) && old(processed) ==>
        outcome == Some(AlreadyProcessed) && processed
      ensures env.enabled != Some(false) && !old(processed) ==>
        outcome.Some? && (processed <==> GatesPass(env)) &&
        (GatesPass(env) ==> outcome.value == RunOutcome(env))
      ensures env.enabled != Some(false) && !old(processed) && !GatesPass(env) ==>
        outcome == Some(Excluded) && !processed
    {
      if env.enabled != Some(false) {
        var o := CreatePdf(false, env);
        outcome := Some(o);
      } else {
        outcome := None;
      }
    }
  }

  /** A discovered address is handed over exactly when it is a non-empty
      string: an empty one (an anchor without `href`) falls through to page
      assembly. */
  lemma DirectPdfIffTruthyUrl(env: Env)
    requires env.pageWidth > 0.0 && env.pageHeight > 0.0
    ensures RunOutcome(env).DirectPdf? <==> FindPdfUrl(env.doc).Some? && FindPdfUrl(env.doc).value != ""
    ensures RunOutcome(env).DirectPdf? ==> RunOutcome(env).url == FindPdfUrl(env.doc).value
  {
  }

  /** A run settles with `true` exactly when it hands over an address or
      saves a document. */
  lemma SettlesTrue(env: Env)
    requires env.pageWidth > 0.0 && env.pageHeight > 0.0
    ensures Settled(RunOutcome(env)) == Some(true) <==> RunOutcome(env).DirectPdf? || RunOutcome(env).Created?
    ensures Settled(RunOutcome(env)).None? <==> RunOutcome(env) == LoadFailed
  {
  }

  /** A saved document, as the program writes it: from the first drawn
      image on, one page per blob image, holding that image when it was drawn
      and blank when its canvas had no context; every drawn image is on its
      page; progress rises to at most 100, once per drawn image; and the name
      is a ".pdf" name free of forbidden characters. */
  lemma CreatedDocument(env: Env)
    requires env.pageWidth > 0.0 && env.pageHeight > 0.0
    requires AssemblyOutcome(env).Created?
    ensures var o, blobs := AssemblyOutcome(env), BlobImages(env.images);
      var d := DrawnIndices(blobs);
      && d != [] && |o.pages| == |blobs| - d[0]
      && (forall p :: 0 <= p < |o.pages| ==>
            o.pages[p] == PageAt(blobs, d[0] + p, env.pageWidth, env.pageHeight))
      && (forall k :: 0 <= k < |d| ==>
            (d[0] <= d[k] && o.pages[d[k] - d[0]] == Picture(d[k], Place(blobs[d[k]], env.pageWidth, env.pageHeight))))
      && |o.progress| == |d|
      && (forall j, k :: 0 <= j < k < |o.progress| ==> o.progress[j] <= o.progress[k] <= 100)
      && EndsWith(o.fileName, ".pdf") && Safe(o.fileName)
  {
    var o, blobs := AssemblyOutcome(env), BlobImages(env.images);
    var d := DrawnIndices(blobs);
    assert o.pages == PagesAsWritten(blobs, env.pageWidth, env.pageHeight);
    assert o.progress == ProgressSent(blobs, |blobs|);
    assert o.fileName == NameFor(env.settings, env.title);
    PagesAsWrittenLayout(blobs, env.pageWidth, env.pageHeight);
    DrawnIndicesIncreasing(blobs);
    ProgressSentRising(blobs, |blobs|);
  }

  /** The document as evidently intended has one page per drawn image, in
      order and none blank; the rest of the outcome is as written. */
  lemma IntendedDocument(env: Env)
    requires env.pageWidth > 0.0 && env.pageHeight > 0.0
    requires AssemblyOutcome(env).Created?
    ensures var o, d := IntendedAssemblyOutcome(env), DrawnIndices(BlobImages(env.images));
      && o.Created?
      && |o.pages| == |d| && Blank !in o.pages
      && (forall k :: 0 <= k < |o.pages| ==> o.pages[k].Picture? && o.pages[k].index == d[k])
      && o.fileName == AssemblyOutcome(env).fileName && o.progress == AssemblyOutcome(env).progress
  {
    var blobs := BlobImages(env.images);
    PagesCorrectedLayout(blobs, env.pageWidth, env.pageHeight);
    CorrectedHasNoBlank(blobs, env.pageWidth, env.pageHeight);
  }

  /** A page without blob images settles with `false` unless an address was
      found first. */
  lemma NoBlobImagesSettlesFalse(env: Env)
    requires env.pageWidth > 0.0 && env.pageHeight > 0.0
    requires BlobImages(env.images) == [] && env.libraryLoads
    requires FindPdfUrl(env.doc).None? || FindPdfUrl(env.doc).value == ""
    ensures Settled(RunOutcome(env)) == Some(false)
  {
  }
}
