/**
 * The sidebar table of contents of a phase page: the phase configuration, the
 * choice of file list (manifest or the index.html fallback) and the list of
 * entries with the active one marked.
 */
module TocGenerator {
  import opened Wrappers
  import opened Strings
  import opened FilenameFormat
  import opened ManifestJson

  /** `TOC_CONFIG.baseFolder`. */
  const BaseFolder := "thesis_html"

  datatype PhaseConfig = PhaseConfig(number: string, folder: string, name: string)

  /** `TOC_CONFIG.phases`. */
  const Phases: seq<PhaseConfig> := [
    PhaseConfig("0", "0_reflection_journal", "Reflection Journal"),
    PhaseConfig("1", "1_idea_generation", "Idea Generation"),
    PhaseConfig("2", "2_proposal", "Proposal"),
    PhaseConfig("3", "3_literature_review", "Literature Review"),
    PhaseConfig("4", "4_theoretical_framework", "Theoretical Framework"),
    PhaseConfig("5", "5_design", "Design"),
    PhaseConfig("6", "6_data_collection", "Data Collection"),
    PhaseConfig("7", "7_data_analysis", "Data Analysis"),
    PhaseConfig("8", "8_report", "Report")
  ]

  /** `TOC_CONFIG.phases.find(p => p.number === phaseNumber)`. */
  function FindPhase(phaseNumber: string): (r: Option<PhaseConfig>)
    ensures r.Some? ==> r.value in Phases && r.value.number == phaseNumber
    ensures r.None? ==> forall p <- Phases :: p.number != phaseNumber
  {
    match FirstIndex(Phases, (p: PhaseConfig) => p.number == phaseNumber)
    case None => None
    case Some(i) => Some(Phases[i])
  }

  /** The single entry getPhaseFiles falls back to when the folder has an index.html but no readable manifest. */
  function OverviewFallback(phaseFolder: string): RawDoc {
    RawDoc(None, Some("index.html"), Some("Overview"), Some(BaseFolder + "/" + phaseFolder + "/index.html"), None, None, None)
  }

  /**
   * getPhaseFiles. `manifest` is the parsed manifest when its fetch succeeded
   * and parsed, `indexExists` whether fetching index.html succeeds. A loaded
   * manifest contributes its `files` array only (or nothing); the fallback
   * applies only when no manifest could be loaded.
   */
  function GetPhaseFiles(phaseFolder: string, manifest: Option<RawManifest>, indexExists: bool): (r: seq<RawDoc>)
    ensures manifest.Some? && manifest.value.files.Some? ==> r == manifest.value.files.value
    ensures manifest.Some? && manifest.value.files.None? ==> r == []
    ensures manifest.None? && indexExists ==> r == [OverviewFallback(phaseFolder)]
    ensures manifest.None? && !indexExists ==> r == []
  {
    match manifest
    case Some(m) => (match m.files case Some(fs) => fs case None => [])
    case None => if indexExists then [OverviewFallback(phaseFolder)] else []
  }

  /** One `li > a` of the table of contents. */
  datatype TocEntry = TocEntry(href: string, text: string, filepath: Option<string>, index: nat, active: bool)

  /** The list part of the sidebar: the empty-state message, the entries, or nothing because rendering threw. */
  datatype TocView = NoContent | Listing(entries: seq<TocEntry>) | Aborted(at: nat)

  /** What generateTOC leaves in the sidebar. */
  datatype Toc = InvalidPhase | Rendered(sidebarTitle: string, view: TocView)

  /** The anchor's href: `?phase=N&file=F`. */
  function TocHref(phaseNumber: string, filename: Option<string>): string {
    "?phase=" + phaseNumber + "&file=" + JsText(filename)
  }

  /**
   * `file.title || formatFilename(file.filename)`; None when there is neither a
   * truthy title nor a file name, where formatFilename(undefined) throws.
   */
  function EntryText(file: RawDoc): (r: Option<string>)
    ensures Truthy(file.title) ==> r == file.title
    ensures !Truthy(file.title) && file.filename.Some? ==> r == Some(FormatFilename(file.filename.value))
    ensures r.None? <==> !Truthy(file.title) && file.filename.None?
  {
    if Truthy(file.title) then file.title
    else match file.filename
      case Some(name) => Some(FormatFilename(name))
      case None => None
  }

  /**
   * generateTOC throws while rendering: the phase is configured and one of its
   * files has neither a truthy title nor a file name.
   */
  predicate TocThrows(phaseNumber: string, manifest: Option<RawManifest>, indexExists: bool) {
    FindPhase(phaseNumber).Some? &&
    var files := GetPhaseFiles(FindPhase(phaseNumber).value.folder, manifest, indexExists);
    exists i :: 0 <= i < |files| && EntryText(files[i]).None?
  }

  /** The entry at `index` is active when its file name is the current file, or when it is the first and no file is selected. */
  predicate EntryActive(file: RawDoc, index: nat, currentFile: Option<string>) {
    (currentFile.Some? && file.filename == currentFile) || (index == 0 && !Truthy(currentFile))
  }

  /** The `li` generateTOC renders for the file at `index`: its link, its text, its path attribute and its active mark. */
  predicate EntryFor(e: TocEntry, index: nat, file: RawDoc, phaseNumber: string, currentFile: Option<string>) {
    && e.index == index
    && e.href == TocHref(phaseNumber, file.filename)
    && Some(e.text) == EntryText(file)
    && e.filepath == file.path
    && (e.active <==> EntryActive(file, index, currentFile))
  }

  /**
   * generateTOC for the page `?phase=phaseNumber&file=currentFile`: an unknown
   * phase shows "Invalid phase"; an empty file list shows the empty-state
   * message and no list; otherwise one entry per file, in manifest order.
   */
  method GenerateToc(phaseNumber: string, manifest: Option<RawManifest>, indexExists: bool, currentFile: Option<string>)
    returns (toc: Toc)
    ensures toc == InvalidPhase <==> FindPhase(phaseNumber).None?
    ensures toc.Rendered? ==> toc.sidebarTitle == FindPhase(phaseNumber).value.name
    ensures toc.Rendered? && toc.view.Aborted? <==> TocThrows(phaseNumber, manifest, indexExists)
    ensures toc.Rendered? ==>
      var files := GetPhaseFiles(FindPhase(phaseNumber).value.folder, manifest, indexExists);
      && (toc.view == NoContent <==> |files| == 0)
      && (toc.view.Aborted? ==>
            && toc.view.at < |files|
            && EntryText(files[toc.view.at]).None?
            && forall i :: 0 <= i < toc.view.at ==> EntryText(files[i]).Some?)
      && (toc.view.Listing? ==>
            && |toc.view.entries| == |files|
            && forall i :: 0 <= i < |files| ==>
                 EntryFor(toc.view.entries[i], i, files[i], phaseNumber, currentFile))
  {
    var phaseInfo := FindPhase(phaseNumber);
    if phaseInfo.None? {
      return InvalidPhase;
    }
    var files := GetPhaseFiles(phaseInfo.value.folder, manifest, indexExists);
    if |files| == 0 {
      assert !TocThrows(phaseNumber, manifest, indexExists);
      return Rendered(phaseInfo.value.name, NoContent);
    }
    var ul: seq<TocEntry> := [];
    var index := 0;
    while index < |files|
      invariant 0 <= index <= |files|
      invariant |ul| == index
      invariant forall i :: 0 <= i < index ==> EntryFor(ul[i], i, files[i], phaseNumber, currentFile)
    {
      var file := files[index];
      var text := EntryText(file);
      if text.None? {
        assert EntryText(files[index]).None?;
        assert TocThrows(phaseNumber, manifest, indexExists);
        return Rendered(phaseInfo.value.name, Aborted(index));
      }
      var active := (currentFile.Some? && currentFile == file.filename) || (index == 0 && !Truthy(currentFile));
      var entry := TocEntry(TocHref(phaseNumber, file.filename), text.value, file.path, index, active);
      assert EntryFor(entry, index, files[index], phaseNumber, currentFile);
      ul := ul + [entry];
      index := index + 1;
    }
    assert !TocThrows(phaseNumber, manifest, indexExists);
    return Rendered(phaseInfo.value.name, Listing(ul));
  }

  /** No two files of the list share a file name, and every name is non-empty. */
  predicate DistinctNames(files: seq<RawDoc>) {
    && (forall i :: 0 <= i < |files| ==> Truthy(files[i].filename))
    && (forall i, j :: 0 <= i < j < |files| ==> files[i].filename != files[j].filename)
  }

  /**
   * With distinct file names, exactly one entry is active when no file is
   * selected or the selected file is listed, and none otherwise.
   */
  lemma ActiveEntryUnique(files: seq<RawDoc>, currentFile: Option<string>)
    requires DistinctNames(files) && |files| > 0
    ensures forall i, j ::
      (0 <= i < |files| && 0 <= j < |files| &&
       EntryActive(files[i], i, currentFile) && EntryActive(files[j], j, currentFile)) ==> i == j
    ensures (exists i :: 0 <= i < |files| && EntryActive(files[i], i, currentFile)) <==>
      (!Truthy(currentFile) || exists i :: 0 <= i < |files| && files[i].filename == currentFile)
  {
    if !Truthy(currentFile) {
      assert EntryActive(files[0], 0, currentFile);
    }
  }
}
