/**
 * The phase page (`phase.html?phase=N&file=F`): the checks on the query
 * parameters, the normalisation of a folder's manifest into the navigation
 * sequence, where the Previous and Next buttons lead, and the rewriting of
 * relative links in loaded content.
 */
module PhaseLoader {
  import opened Wrappers
  import opened Strings
  import opened ManifestJson
  import TocGenerator
  import Navigation

  /** The highest phase number; Next never leads past it. */
  const LastPhase: nat := 8

  /** A record of the navigation sequence, after getAllPhaseFiles's normalisation. */
  datatype NavRecord = NavRecord(
    filename: Option<string>,
    title: Option<string>,
    path: string,
    date: Option<string>,
    category: Option<string>,
    isPhaseOverview: bool)

  /** `manifest.documents || manifest.files || []`: an array is truthy even when empty. */
  function ManifestDocs(manifest: Option<RawManifest>): (docs: seq<RawDoc>)
    ensures manifest.None? ==> docs == []
    ensures manifest.Some? && manifest.value.documents.Some? ==> docs == manifest.value.documents.value
    ensures manifest.Some? && manifest.value.documents.None? && manifest.value.files.Some? ==>
      docs == manifest.value.files.value
    ensures manifest.Some? && manifest.value.documents.None? && manifest.value.files.None? ==> docs == []
  {
    match manifest
    case None => []
    case Some(m) =>
      if m.documents.Some? then m.documents.value
      else if m.files.Some? then m.files.value
      else []
  }

  /** The `docs.map(doc => ({...}))` step of getAllPhaseFiles for one record. */
  function Normalize(phaseFolder: string, doc: RawDoc): NavRecord {
    var filename := if Truthy(doc.file) then doc.file else doc.filename;
    NavRecord(
      filename,
      doc.title,
      if Truthy(doc.path) then doc.path.value
      else TocGenerator.BaseFolder + "/" + phaseFolder + "/" + JsText(filename),
      doc.date,
      doc.category,
      doc.isPhaseOverview == Some(true))
  }

  /**
   * Normalisation defaults: `file` wins over `filename` unless it is missing
   * or empty, a missing or empty `path` becomes `thesis_html/<folder>/<name>`,
   * only an explicit `true` marks the overview, and the other fields pass
   * through.
   */
  lemma NormalizeDefaults(phaseFolder: string, doc: RawDoc)
    ensures Truthy(doc.file) ==> Normalize(phaseFolder, doc).filename == doc.file
    ensures !Truthy(doc.file) ==> Normalize(phaseFolder, doc).filename == doc.filename
    ensures !Truthy(doc.path) ==>
      Normalize(phaseFolder, doc).path == TocGenerator.BaseFolder + "/" + phaseFolder + "/" + JsText(Normalize(phaseFolder, doc).filename)
    ensures Truthy(doc.path) ==> Normalize(phaseFolder, doc).path == doc.path.value
    ensures Normalize(phaseFolder, doc).isPhaseOverview <==> doc.isPhaseOverview == Some(true)
    ensures Normalize(phaseFolder, doc).title == doc.title
    ensures Normalize(phaseFolder, doc).date == doc.date && Normalize(phaseFolder, doc).category == doc.category
  {
  }

  /**
   * getAllPhaseFiles with the fetch replaced by its outcome (None when the
   * manifest could not be fetched or parsed): one normalised record per
   * manifest record, in manifest order, with no sorting.
   */
  function GetAllPhaseFiles(phaseFolder: string, manifest: Option<RawManifest>): (files: seq<NavRecord>)
    ensures |files| == |ManifestDocs(manifest)|
    ensures forall i :: 0 <= i < |files| ==> files[i] == Normalize(phaseFolder, ManifestDocs(manifest)[i])
  {
    var docs := ManifestDocs(manifest);
    seq(|docs|, i requires 0 <= i < |docs| => Normalize(phaseFolder, docs[i]))
  }

  /** Where a button leads: a phase's landing view, or a document of a phase. */
  datatype Dest = Landing(phase: nat) | Document(phase: nat, file: Option<string>)

  /** The URL the button's click handler assigns to `window.location.href`. */
  function Href(d: Dest): string {
    match d
    case Landing(p) => "phase.html?phase=" + NatToString(p)
    case Document(p, f) => "phase.html?phase=" + NatToString(p) + "&file=" + JsText(f)
  }

  /**
   * The URLs built from the phase number are the ones the source builds from
   * the key string, and the next phase's landing URL carries the next digit.
   */
  lemma HrefUsesKey(key: string, file: Option<string>)
    requires Navigation.IsPhaseKey(key)
    ensures Href(Landing(Navigation.PhaseNumber(key))) == "phase.html?phase=" + key
    ensures Href(Document(Navigation.PhaseNumber(key), file)) == "phase.html?phase=" + key + "&file=" + JsText(file)
    ensures Navigation.PhaseNumber(key) < LastPhase ==>
      Href(Landing(Navigation.PhaseNumber(key) + 1)) == "phase.html?phase=" + [(key[0] as int + 1) as char]
  {
    assert key == [key[0]];
  }

  /** What setupPageNavigation does to one button. */
  datatype ButtonAction = Untouched | Hide | Show(dest: Dest)

  /** `allFiles.findIndex(f => f.filename === currentFile)`. */
  function FileIndex(allFiles: seq<NavRecord>, currentFile: string): Option<nat> {
    FirstIndex(allFiles, (f: NavRecord) => f.filename == Some(currentFile))
  }

  /** `allFiles.find(f => f.isPhaseOverview)`, as an index. */
  function OverviewIndex(allFiles: seq<NavRecord>): Option<nat> {
    FirstIndex(allFiles, (f: NavRecord) => f.isPhaseOverview)
  }

  /** The Previous button's fate on phase `phase` when `currentFile` is the `file` parameter. */
  function PrevAction(phase: nat, currentFile: Option<string>, allFiles: seq<NavRecord>): ButtonAction {
    if !Truthy(currentFile) then Hide
    else match FileIndex(allFiles, currentFile.value)
      case None => Untouched
      case Some(i) =>
        if allFiles[i].isPhaseOverview then Show(Landing(phase))
        else if i > 0 then Show(Document(phase, allFiles[i - 1].filename))
        else Hide
  }

  /** The Next button's fate on phase `phase` when `currentFile` is the `file` parameter. */
  function NextAction(phase: nat, currentFile: Option<string>, allFiles: seq<NavRecord>): ButtonAction {
    if !Truthy(currentFile) then
      match OverviewIndex(allFiles)
      case None => Untouched
      case Some(k) => Show(Document(phase, allFiles[k].filename))
    else match FileIndex(allFiles, currentFile.value)
      case None => Untouched
      case Some(i) =>
        if i < |allFiles| - 1 then Show(Document(phase, allFiles[i + 1].filename))
        else if phase + 1 <= LastPhase then Show(Landing(phase + 1))
        else Hide
  }

  /** On the landing view Previous is hidden; Next leads to the first overview record if there is one and is left alone otherwise. */
  lemma LandingViewButtons(phase: nat, currentFile: Option<string>, allFiles: seq<NavRecord>)
    requires !Truthy(currentFile)
    ensures PrevAction(phase, currentFile, allFiles) == Hide
    ensures NextAction(phase, currentFile, allFiles).Show? <==> exists k :: 0 <= k < |allFiles| && allFiles[k].isPhaseOverview
    ensures (forall k :: 0 <= k < |allFiles| ==> !allFiles[k].isPhaseOverview) ==> NextAction(phase, currentFile, allFiles) == Untouched
    ensures NextAction(phase, currentFile, allFiles).Show? ==>
      exists k :: 0 <= k < |allFiles| && allFiles[k].isPhaseOverview
        && (forall j :: 0 <= j < k ==> !allFiles[j].isPhaseOverview)
        && NextAction(phase, currentFile, allFiles) == Show(Document(phase, allFiles[k].filename))
  {
  }

  /** A `file` parameter that names no record leaves both buttons as they were. */
  lemma UnknownFileLeavesButtons(phase: nat, currentFile: Option<string>, allFiles: seq<NavRecord>)
    requires Truthy(currentFile)
    requires forall i :: 0 <= i < |allFiles| ==> allFiles[i].filename != currentFile
    ensures PrevAction(phase, currentFile, allFiles) == Untouched
    ensures NextAction(phase, currentFile, allFiles) == Untouched
  {
  }

  /**
   * For the first record named `currentFile`, at index i: Previous leads to the
   * landing view when the record is the overview, to record i-1 when i > 0,
   * and is hidden otherwise; Next leads to record i+1, or past the last record
   * to the next phase's landing view, hidden after the last phase.
   */
  lemma RecordButtons(phase: nat, currentFile: Option<string>, allFiles: seq<NavRecord>, i: nat)
    requires Truthy(currentFile) && FileIndex(allFiles, currentFile.value) == Some(i)
    ensures PrevAction(phase, currentFile, allFiles) ==
      if allFiles[i].isPhaseOverview then Show(Landing(phase))
      else if i > 0 then Show(Document(phase, allFiles[i - 1].filename))
      else Hide
    ensures NextAction(phase, currentFile, allFiles) ==
      if i < |allFiles| - 1 then Show(Document(phase, allFiles[i + 1].filename))
      else if phase < LastPhase then Show(Landing(phase + 1))
      else Hide
  {
  }

  /** No button ever leads to an earlier phase, nor past the last one when it changes phase. */
  lemma NeverBackwardsAcrossPhases(phase: nat, currentFile: Option<string>, allFiles: seq<NavRecord>)
    ensures forall a <- [PrevAction(phase, currentFile, allFiles), NextAction(phase, currentFile, allFiles)] ::
      a.Show? ==> (a.dest.phase == phase || (a.dest == Landing(phase + 1) && phase + 1 <= LastPhase))
    ensures PrevAction(phase, currentFile, allFiles).Show? ==> PrevAction(phase, currentFile, allFiles).dest.phase == phase
  {
  }

  /** Every record has a non-empty file name and no two records share one. */
  predicate DistinctFilenames(allFiles: seq<NavRecord>) {
    && (forall i :: 0 <= i < |allFiles| ==> Truthy(allFiles[i].filename))
    && (forall i, j :: 0 <= i < j < |allFiles| ==> allFiles[i].filename != allFiles[j].filename)
  }

  /** With distinct names, findIndex finds a record by its own name. */
  lemma FileIndexOfDistinct(allFiles: seq<NavRecord>, i: nat)
    requires DistinctFilenames(allFiles) && i < |allFiles|
    ensures FileIndex(allFiles, allFiles[i].filename.value) == Some(i)
  {
  }

  /**
   * Adjacent records round-trip: Next from record i leads to record i+1, and
   * Previous from record i+1 leads back to record i unless record i+1 is an
   * overview (whose Previous is the landing view).
   */
  lemma AdjacentRoundTrip(phase: nat, allFiles: seq<NavRecord>, i: nat)
    requires DistinctFilenames(allFiles) && i + 1 < |allFiles|
    ensures NextAction(phase, allFiles[i].filename, allFiles) == Show(Document(phase, allFiles[i + 1].filename))
    ensures !allFiles[i + 1].isPhaseOverview ==>
      PrevAction(phase, allFiles[i + 1].filename, allFiles) == Show(Document(phase, allFiles[i].filename))
  {
    FileIndexOfDistinct(allFiles, i);
    FileIndexOfDistinct(allFiles, i + 1);
  }

  /**
   * Where Next leads from the record before position k: the record at k, or,
   * past the last record, the next phase's landing view (hidden after the
   * last phase).
   */
  function NextTarget(phase: nat, allFiles: seq<NavRecord>, k: nat): ButtonAction
    requires k <= |allFiles|
  {
    if k < |allFiles| then Show(Document(phase, allFiles[k].filename))
    else if phase < LastPhase then Show(Landing(phase + 1))
    else Hide
  }

  /** With distinct names, Next from a record leads to the record after it, or past the last one out of the phase. */
  lemma NextFromRecord(phase: nat, allFiles: seq<NavRecord>, k: nat)
    requires DistinctFilenames(allFiles) && k < |allFiles|
    ensures NextAction(phase, allFiles[k].filename, allFiles) == NextTarget(phase, allFiles, k + 1)
  {
    FileIndexOfDistinct(allFiles, k);
  }

  /**
   * The Next button's action after pressing Next `presses` times from the
   * landing view, staying inside the phase; Untouched once a press leaves it.
   */
  function NextAfterPresses(phase: nat, allFiles: seq<NavRecord>, presses: nat): ButtonAction {
    if presses == 0 then NextAction(phase, None, allFiles)
    else match NextAfterPresses(phase, allFiles, presses - 1)
      case Show(Document(p, f)) => NextAction(phase, f, allFiles)
      case _ => Untouched
  }

  /**
   * When the overview is the first record and names are distinct, pressing
   * Next from the landing view visits every record in manifest order and then
   * reaches the next phase's landing view (hidden after the last phase).
   */
  lemma {:induction false} NextVisitsEveryRecord(phase: nat, allFiles: seq<NavRecord>, presses: nat)
    requires DistinctFilenames(allFiles) && |allFiles| > 0 && allFiles[0].isPhaseOverview
    requires presses <= |allFiles|
    ensures NextAfterPresses(phase, allFiles, presses) == NextTarget(phase, allFiles, presses)
  {
    if presses == 0 {
      NextFromLanding(phase, allFiles);
    } else {
      NextVisitsEveryRecord(phase, allFiles, presses - 1);
      NextPressStep(phase, allFiles, presses);
    }
  }

  /** If the presses so far reached record k-1, one more press reaches the target after it. */
  lemma NextPressStep(phase: nat, allFiles: seq<NavRecord>, presses: nat)
    requires DistinctFilenames(allFiles) && 0 < presses <= |allFiles|
    requires NextAfterPresses(phase, allFiles, presses - 1) == NextTarget(phase, allFiles, presses - 1)
    ensures NextAfterPresses(phase, allFiles, presses) == NextTarget(phase, allFiles, presses)
  {
    var k := presses - 1;
    var f := allFiles[k].filename;
    assert NextTarget(phase, allFiles, k) == Show(Document(phase, f));
    NextAfterPressesStep(phase, allFiles, presses, f);
    NextFromRecord(phase, allFiles, k);
    assert k + 1 == presses;
  }

  /** From the landing view, Next leads to the overview when it is the first record. */
  lemma NextFromLanding(phase: nat, allFiles: seq<NavRecord>)
    requires |allFiles| > 0 && allFiles[0].isPhaseOverview
    ensures NextAction(phase, None, allFiles) == Show(Document(phase, allFiles[0].filename))
  {
    assert OverviewIndex(allFiles) == Some(0);
  }

  /** One more press of Next from a document acts as Next on that document. */
  lemma NextAfterPressesStep(phase: nat, allFiles: seq<NavRecord>, presses: nat, f: Option<string>)
    requires presses > 0 && NextAfterPresses(phase, allFiles, presses - 1) == Show(Document(phase, f))
    ensures NextAfterPresses(phase, allFiles, presses) == NextAction(phase, f, allFiles)
  {
  }

  /** How a button is displayed: as the page styled it, `flex`, or `none`. */
  datatype Display = AsStyled | Flex | Hidden

  /** The Previous or Next button: its `style.display` and the destination of its click handler. */
  class NavButton {
    var display: Display
    var onclick: Option<Dest>

    constructor ()
      ensures display == AsStyled && onclick == None
    {
      display := AsStyled;
      onclick := None;
    }
  }

  /** A button's display and handler after an action. */
  function AfterAction(display: Display, onclick: Option<Dest>, a: ButtonAction): (Display, Option<Dest>) {
    match a
    case Untouched => (display, onclick)
    case Hide => (Hidden, onclick)
    case Show(d) => (Flex, Some(d))
  }

  /**
   * setupPageNavigation for the validated phase key `phaseNumber`, with the
   * manifest fetch replaced by its outcome: each button ends as its action
   * says, and nothing else changes.
   */
  method SetupPageNavigation(phaseNumber: string, currentFile: Option<string>, manifest: Option<RawManifest>,
                             prevButton: NavButton, nextButton: NavButton)
    requires Navigation.IsPhaseKey(phaseNumber)
    requires prevButton != nextButton
    modifies prevButton, nextButton
    ensures
      var allFiles := GetAllPhaseFiles(Navigation.PhaseOf(phaseNumber).folder, manifest);
      var phase := Navigation.PhaseNumber(phaseNumber);
      && (prevButton.display, prevButton.onclick) ==
           AfterAction(old(prevButton.display), old(prevButton.onclick), PrevAction(phase, currentFile, allFiles))
      && (nextButton.display, nextButton.onclick) ==
           AfterAction(old(nextButton.display), old(nextButton.onclick), NextAction(phase, currentFile, allFiles))
  {
    Navigation.GetPhaseInfoKeys(phaseNumber);
    var phaseInfo := Navigation.GetPhaseInfo(phaseNumber).value;
    assert phaseInfo == Navigation.PhaseOf(phaseNumber);
    var phase := Navigation.PhaseNumber(phaseNumber);
    var allFiles := GetAllPhaseFiles(phaseInfo.folder, manifest);
    assert allFiles == GetAllPhaseFiles(Navigation.PhaseOf(phaseNumber).folder, manifest);
    ghost var prevAction := PrevAction(phase, currentFile, allFiles);
    ghost var nextAction := NextAction(phase, currentFile, allFiles);

    if !Truthy(currentFile) {
      var overviewFile := OverviewIndex(allFiles);
      if overviewFile.Some? {
        assert nextAction == Show(Document(phase, allFiles[overviewFile.value].filename));
        nextButton.display := Flex;
        nextButton.onclick := Some(Document(phase, allFiles[overviewFile.value].filename));
      } else {
        assert nextAction == Untouched;
      }
      assert prevAction == Hide;
      prevButton.display := Hidden;
      return;
    }

    var currentIndex := FileIndex(allFiles, currentFile.value);
    if currentIndex.None? {
      assert prevAction == Untouched && nextAction == Untouched;
      return;
    }
    var i := currentIndex.value;
    var currentFileData := allFiles[i];
    RecordButtons(phase, currentFile, allFiles, i);

    if currentFileData.isPhaseOverview {
      assert prevAction == Show(Landing(phase));
      prevButton.display := Flex;
      prevButton.onclick := Some(Landing(phase));
    } else if i > 0 {
      assert prevAction == Show(Document(phase, allFiles[i - 1].filename));
      prevButton.display := Flex;
      prevButton.onclick := Some(Document(phase, allFiles[i - 1].filename));
    } else {
      assert prevAction == Hide;
      prevButton.display := Hidden;
    }
    assert (prevButton.display, prevButton.onclick) == AfterAction(old(prevButton.display), old(prevButton.onclick), prevAction);

    if i < |allFiles| - 1 {
      assert nextAction == Show(Document(phase, allFiles[i + 1].filename));
      nextButton.display := Flex;
      nextButton.onclick := Some(Document(phase, allFiles[i + 1].filename));
    } else {
      var nextPhaseNumber := phase + 1;
      if nextPhaseNumber <= LastPhase {
        assert nextAction == Show(Landing(nextPhaseNumber));
        nextButton.display := Flex;
        nextButton.onclick := Some(Landing(nextPhaseNumber));
      } else {
        assert nextAction == Hide;
        nextButton.display := Hidden;
      }
    }
  }

  /** `thesis_html/<folder>/`, the prefix fixRelativeLinks puts before relative URLs. */
  function BasePath(phaseFolder: string): string {
    TocGenerator.BaseFolder + "/" + phaseFolder + "/"
  }

  /** A link's href is rewritten when it is non-empty and starts with none of "http", "#" and "/". */
  predicate RewritesHref(href: string) {
    href != "" && !StartsWith(href, "http") && !StartsWith(href, "#") && !StartsWith(href, "/")
  }

  /** An image's src is rewritten when it is non-empty and starts with neither "http" nor "/". */
  predicate RewritesSrc(src: string) {
    src != "" && !StartsWith(src, "http") && !StartsWith(src, "/")
  }

  function FixedHref(base: string, href: string): string {
    if RewritesHref(href) then base + href else href
  }

  function FixedSrc(base: string, src: string): string {
    if RewritesSrc(src) then base + src else src
  }

  /**
   * A link changes exactly when the rule says so, and then it becomes the
   * original URL under the phase folder; an image follows the same rule except
   * that a "#" source is not exempt.
   */
  lemma RelativeLinkRule(phaseFolder: string, url: string)
    ensures FixedHref(BasePath(phaseFolder), url) != url <==> RewritesHref(url)
    ensures FixedSrc(BasePath(phaseFolder), url) != url <==> RewritesSrc(url)
    ensures RewritesHref(url) ==> FixedHref(BasePath(phaseFolder), url) == BasePath(phaseFolder) + url
    ensures RewritesSrc(url) ==> FixedSrc(BasePath(phaseFolder), url) == BasePath(phaseFolder) + url
    ensures RewritesHref(url) <==> RewritesSrc(url) && !StartsWith(url, "#")
  {
    var b := BasePath(phaseFolder);
    assert |b + url| > |url|;
  }

  /**
   * fixRelativeLinks over the `href` values of the container's `a[href]`
   * elements and the `src` values of its `img[src]` elements, rewritten in place.
   */
  method FixRelativeLinks(hrefs: array<string>, srcs: array<string>, phaseFolder: string)
    requires hrefs != srcs
    modifies hrefs, srcs
    ensures forall i :: 0 <= i < hrefs.Length ==> hrefs[i] == FixedHref(BasePath(phaseFolder), old(hrefs[i]))
    ensures forall i :: 0 <= i < srcs.Length ==> srcs[i] == FixedSrc(BasePath(phaseFolder), old(srcs[i]))
  {
    var basePath := BasePath(phaseFolder);
    var n := 0;
    while n < hrefs.Length
      invariant 0 <= n <= hrefs.Length
      invariant forall i :: 0 <= i < n ==> hrefs[i] == FixedHref(basePath, old(hrefs[i]))
      invariant forall i :: n <= i < hrefs.Length ==> hrefs[i] == old(hrefs[i])
      invariant forall i :: 0 <= i < srcs.Length ==> srcs[i] == old(srcs[i])
    {
      var href := hrefs[n];
      if href != "" && !StartsWith(href, "http") && !StartsWith(href, "#") && !StartsWith(href, "/") {
        hrefs[n] := basePath + href;
      }
      n := n + 1;
    }
    n := 0;
    while n < srcs.Length
      invariant 0 <= n <= srcs.Length
      invariant forall i :: 0 <= i < hrefs.Length ==> hrefs[i] == FixedHref(basePath, old(hrefs[i]))
      invariant forall i :: 0 <= i < n ==> srcs[i] == FixedSrc(basePath, old(srcs[i]))
      invariant forall i :: n <= i < srcs.Length ==> srcs[i] == old(srcs[i])
    {
      var src := srcs[n];
      if src != "" && !StartsWith(src, "http") && !StartsWith(src, "/") {
        srcs[n] := basePath + src;
      }
      n := n + 1;
    }
  }

  /**
   * What the phase page shows in its content area: the phase introduction,
   * a document, or nothing new because generateTOC threw, which ends
   * initPhasePage before the content is loaded and the buttons are set up.
   */
  datatype PageView = Introduction | DocumentContent(file: string) | Interrupted

  /** The outcome of initPhasePage's checks: an error message, or the page it goes on to build. */
  datatype PhasePage =
    | ErrorPage(message: string)
    | Page(documentTitle: string, breadcrumb: seq<Navigation.Crumb>, phaseNumber: string, view: PageView)

  /**
   * initPhasePage from the `phase` and `file` query parameters and the outcome
   * of the table of contents' manifest fetch (`tocManifest`, `indexExists` as
   * for getPhaseFiles): a missing or empty phase and an unknown phase are
   * reported before anything is fetched; a valid phase gets the title
   * "<name> - DBA Thesis" and the breadcrumb Home (index.html) > <name>
   * (phase.html?phase=N); then, unless generateTOC throws, the named document
   * or, with no file, the introduction.
   */
  function InitPhasePage(phaseParam: Option<string>, fileParam: Option<string>,
                         tocManifest: Option<RawManifest>, indexExists: bool): (r: PhasePage)
    ensures !Truthy(phaseParam) ==> r == ErrorPage("No phase specified")
    ensures Truthy(phaseParam) && !Navigation.IsPhaseKey(phaseParam.value) ==> r == ErrorPage("Invalid phase number")
    ensures Truthy(phaseParam) && Navigation.IsPhaseKey(phaseParam.value) ==>
      && r.Page?
      && r.phaseNumber == phaseParam.value
      && r.documentTitle == Navigation.PhaseOf(r.phaseNumber).name + " - DBA Thesis"
      && r.breadcrumb == [Navigation.Crumb("Home", Some("index.html")),
                          Navigation.Crumb(Navigation.PhaseOf(r.phaseNumber).name, Some("phase.html?phase=" + r.phaseNumber))]
      && (r.view == Interrupted <==> TocGenerator.TocThrows(r.phaseNumber, tocManifest, indexExists))
      && (r.view != Interrupted ==>
            r.view == if Truthy(fileParam) then DocumentContent(fileParam.value) else Introduction)
  {
    if !Truthy(phaseParam) then ErrorPage("No phase specified")
    else
      var phaseNumber := phaseParam.value;
      var phaseInfo := Navigation.GetPhaseInfo(phaseNumber);
      Navigation.GetPhaseInfoKeys(phaseNumber);
      if phaseInfo.None? then ErrorPage("Invalid phase number")
      else
        Page(
          phaseInfo.value.name + " - DBA Thesis",
          [Navigation.Crumb("Home", Some("index.html")),
           Navigation.Crumb(phaseInfo.value.name, Some("phase.html?phase=" + phaseNumber))],
          phaseNumber,
          if TocGenerator.TocThrows(phaseNumber, tocManifest, indexExists) then Interrupted
          else if Truthy(fileParam) then DocumentContent(fileParam.value)
          else Introduction)
  }
}
