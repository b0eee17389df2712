/**
 * The per-folder `manifest.json` as the browser scripts read it. Every field of
 * a record is optional: a reader sees a string, a boolean or `undefined`.
 * Two shapes exist: the generator writes a `files` array; hand-written
 * manifests may carry a `documents` array with `file`, `date`, `category` and
 * `isPhaseOverview`.
 */
module ManifestJson {
  import opened Wrappers

  datatype RawDoc = RawDoc(
    file: Option<string>,
    filename: Option<string>,
    title: Option<string>,
    path: Option<string>,
    date: Option<string>,
    category: Option<string>,
    isPhaseOverview: Option<bool>)

  datatype RawManifest = RawManifest(documents: Option<seq<RawDoc>>, files: Option<seq<RawDoc>>)
}
