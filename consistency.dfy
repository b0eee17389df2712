/**
 * Facts that tie the scripts together: the two phase tables of the browser
 * scripts agree, the generator's folder list is the table of contents'
 * folder list, and a manifest written by the generator is read by the phase
 * page and the table of contents as described here.
 */
module SiteConsistency {
  import opened Wrappers
  import opened Strings
  import opened ManifestJson
  import FilenameFormat
  import Navigation
  import TocGenerator
  import PhaseLoader
  import ManifestGenerator

  /** The phase numbers of `TOC_CONFIG.phases` are "0" to "8", in order. */
  lemma TocPhaseNumbers()
    ensures |TocGenerator.Phases| == 9
    ensures forall i :: 0 <= i < 9 ==> TocGenerator.Phases[i].number == [('0' as int + i) as char]
  {
  }

  /** `TOC_CONFIG.phases.find` finds nothing for a key that is not "0" to "8". */
  lemma FindPhaseOnlyKeys(key: string)
    ensures TocGenerator.FindPhase(key).Some? ==> Navigation.IsPhaseKey(key)
  {
    TocPhaseNumbers();
    var r := TocGenerator.FindPhase(key);
    if r.Some? {
      var i :| 0 <= i < 9 && TocGenerator.Phases[i] == r.value;
      assert key == [('0' as int + i) as char];
    }
  }

  /** `TOC_CONFIG.phases.find` finds the entry of a valid key at the index of its number. */
  lemma FindPhaseOfKey(key: string)
    requires Navigation.IsPhaseKey(key)
    ensures TocGenerator.FindPhase(key) == Some(TocGenerator.Phases[Navigation.PhaseNumber(key)])
  {
    TocPhaseNumbers();
    var n := Navigation.PhaseNumber(key);
    assert key == [key[0]];
    assert TocGenerator.Phases[n].number == key;
    assert TocGenerator.Phases[n] in TocGenerator.Phases;
    var r := TocGenerator.FindPhase(key);
    var j :| 0 <= j < 9 && TocGenerator.Phases[j] == r.value;
    assert TocGenerator.Phases[j].number == [('0' as int + j) as char];
  }

  /**
   * For every key, getPhaseInfo and `TOC_CONFIG.phases` agree: both know
   * exactly the keys "0" to "8", with the same display name and folder.
   */
  lemma PhaseTablesAgree(key: string)
    ensures Navigation.GetPhaseInfo(key).Some? <==> TocGenerator.FindPhase(key).Some?
    ensures Navigation.GetPhaseInfo(key).Some? ==>
      && Navigation.GetPhaseInfo(key).value.name == TocGenerator.FindPhase(key).value.name
      && Navigation.GetPhaseInfo(key).value.folder == TocGenerator.FindPhase(key).value.folder
  {
    Navigation.GetPhaseInfoKeys(key);
    FindPhaseOnlyKeys(key);
    if Navigation.IsPhaseKey(key) {
      FindPhaseOfKey(key);
      TablesAgreeAt(key);
    }
  }

  /** The entries for a phase key in the two tables carry the same name and folder. */
  lemma TablesAgreeAt(key: string)
    requires Navigation.IsPhaseKey(key)
    ensures key in Navigation.PhaseTable
    ensures Navigation.PhaseTable[key].name == TocGenerator.Phases[Navigation.PhaseNumber(key)].name
    ensures Navigation.PhaseTable[key].folder == TocGenerator.Phases[Navigation.PhaseNumber(key)].folder
  {
    assert key == [key[0]];
    var c := key[0];
    if c == '0' { assert key == "0"; }
    else if c == '1' { assert key == "1"; }
    else if c == '2' { assert key == "2"; }
    else if c == '3' { assert key == "3"; }
    else if c == '4' { assert key == "4"; }
    else if c == '5' { assert key == "5"; }
    else if c == '6' { assert key == "6"; }
    else if c == '7' { assert key == "7"; }
    else { assert key == "8"; }
  }

  /** The generator writes manifests into the same folders, under the same base directory, that the browser reads. */
  lemma GeneratorFoldersMatchToc()
    ensures ManifestGenerator.BaseDir == TocGenerator.BaseFolder
    ensures |ManifestGenerator.PhaseFolders| == |TocGenerator.Phases|
    ensures forall i :: 0 <= i < |TocGenerator.Phases| ==> ManifestGenerator.PhaseFolders[i] == TocGenerator.Phases[i].folder
  {
  }

  /** A generated record as the browser parses it: `filename`, `title` and `path` are present; `modified` is read by nobody. */
  function AsRawDoc(f: ManifestGenerator.ManifestFile): RawDoc {
    RawDoc(None, Some(f.filename), Some(f.title), Some(f.path), None, None, None)
  }

  /** A generated manifest as the browser parses it: a `files` array and no `documents`. */
  function AsRawManifest(m: ManifestGenerator.Manifest): (raw: RawManifest)
    ensures raw.documents.None? && raw.files.Some? && |raw.files.value| == |m.files|
  {
    RawManifest(None, Some(seq(|m.files|, i requires 0 <= i < |m.files| => AsRawDoc(m.files[i]))))
  }

  /**
   * The phase page reads a generated manifest record by record: the same
   * names, titles and paths, none marked as the overview, so on the landing
   * view the Next button is never given a target.
   */
  lemma GeneratedManifestOnPhasePage(phase: nat, phaseFolder: string, m: ManifestGenerator.Manifest)
    ensures var recs := PhaseLoader.GetAllPhaseFiles(phaseFolder, Some(AsRawManifest(m)));
      && |recs| == |m.files|
      && (forall i :: 0 <= i < |recs| ==>
            && recs[i].filename == Some(m.files[i].filename)
            && recs[i].title == Some(m.files[i].title)
            && !recs[i].isPhaseOverview)
      && PhaseLoader.NextAction(phase, None, recs) == PhaseLoader.Untouched
  {
    var recs := PhaseLoader.GetAllPhaseFiles(phaseFolder, Some(AsRawManifest(m)));
    assert PhaseLoader.OverviewIndex(recs).None?;
  }

  /**
   * Every record of a generated manifest names its path under
   * `thesis_html/<folder>/`, the same path the phase page would default to.
   */
  lemma GeneratedPathsAreDefaults(phaseFolder: string, dirExists: bool, listing: Option<seq<string>>,
                                  statOk: string -> bool, read: string -> Option<string>)
    requires dirExists
    ensures var m := ManifestGenerator.GenerateManifest(phaseFolder, dirExists, listing, statOk, read).value;
      var recs := PhaseLoader.GetAllPhaseFiles(phaseFolder, Some(AsRawManifest(m)));
      forall i :: 0 <= i < |recs| ==>
        recs[i].path == TocGenerator.BaseFolder + "/" + phaseFolder + "/" + JsText(recs[i].filename)
  {
    var m := ManifestGenerator.GenerateManifest(phaseFolder, dirExists, listing, statOk, read).value;
    var recs := PhaseLoader.GetAllPhaseFiles(phaseFolder, Some(AsRawManifest(m)));
    forall i | 0 <= i < |recs|
      ensures recs[i].path == TocGenerator.BaseFolder + "/" + phaseFolder + "/" + JsText(recs[i].filename)
    {
      var f := m.files[i];
      assert f.path == ManifestGenerator.BaseDir + "/" + phaseFolder + "/" + f.filename;
      assert recs[i] == PhaseLoader.Normalize(phaseFolder, AsRawDoc(f));
    }
  }

  /**
   * The table of contents lists a generated manifest's records in order, each
   * with the generator's title, or the formatted file name when that title is
   * empty.
   */
  lemma GeneratedManifestInToc(phaseFolder: string, m: ManifestGenerator.Manifest, indexExists: bool)
    ensures var files := TocGenerator.GetPhaseFiles(phaseFolder, Some(AsRawManifest(m)), indexExists);
      && |files| == |m.files|
      && forall i :: 0 <= i < |files| ==>
           && files[i].filename == Some(m.files[i].filename)
           && TocGenerator.EntryText(files[i]) ==
                Some(if m.files[i].title != "" then m.files[i].title
                     else FilenameFormat.FormatFilename(m.files[i].filename))
  {
  }
}
