/**
 * The file system as the downloader sees it: a map from the paths it names
 * to their contents; a path absent from the map does not exist.
 */
module Files {
  import opened Common

  /**
   * The three kinds of file the downloader writes for a company id under the
   * year directory: `csv_<id>.csv`, its in-progress `csv_<id>.csv.part`, and
   * the page fragment `_parts/<id>/part_<page:06d>.csv`.
   */
  datatype Path =
    | Artifact(id: string)
    | PartialArtifact(id: string)
    | PageFragment(id: string, page: nat)

  type FileSystem = map<Path, string>

  /** Contents of `p`, or empty when it does not exist. */
  function Contents(fs: FileSystem, p: Path): string {
    if p in fs then fs[p] else ""
  }

  /** `p.unlink()` when `contents` is `None`, otherwise writing `contents` to `p`. */
  function Put(fs: FileSystem, p: Path, contents: Option<string>): FileSystem {
    match contents
    case None => fs - {p}
    case Some(c) => fs[p := c]
  }

  /** The current contents of `p`, `None` if it does not exist. */
  function Get(fs: FileSystem, p: Path): Option<string> {
    if p in fs then Some(fs[p]) else None
  }
}
