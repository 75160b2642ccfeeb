/**
 * What the compound-format detectors (lib/inquisitive) report: a status and,
 * with Found, the tag and name that `ir.assign` records. Labels that the
 * source builds with StrCat are kept as the numbers that go into them.
 */
module Inquisitive {
  import opened Wrappers

  /** The types:: tags assigned by the ZIP and git detectors. */
  datatype Types = Zip | Docx | Pptx | Xlsx | GitPack | GitPkIndex

  datatype Label =
    | Description(text: string)
      /** "Git pack file, version V, objects N" */
    | PackLabel(version: nat, objects: nat)
      /** "Git pack indexs file, version V" followed by ", total objects N" when known */
    | IndexLabel(version: nat, totalObjects: Option<nat>)
      /** "Git multi-pack-index, version V, oid version O, chunks C, pack files P" */
    | MidxLabel(version: nat, oidVersion: nat, chunks: nat, packFiles: nat)

  /**
   * status_t with the result: None, or Found with what was assigned.
   * ReadPastEnd stands for a point where the source reads bytes outside the
   * view it was given (undefined behaviour rather than an answer).
   */
  datatype Status = NoMatch | Found(tag: Types, name: Label) | ReadPastEnd
}
