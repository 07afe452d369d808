/** The mode string save and load pass to tarfile.open (lyncs_io/tar.py,
    save and load), with the file-system existence test as an input. */
module TarOpen {
  import opened TarErrors
  import opened TarModes
  import opened PosixPath

  /** The open mode of save: _get_mode first, then "a" for an existing
      tarball and "w" with the compression suffix for a new one. */
  function SaveMode(tarballPath: string, present: bool): (r: Result<string>)
    ensures r.Ok? <==> GetMode(tarballPath).Ok?
    ensures r.Err? ==> r.error == UnsupportedExtension(SplitExt(tarballPath).1)
    ensures r.Ok? ==> (r.value == "a" <==> present)
    ensures r.Ok? && !present ==> |r.value| >= 1 && r.value[0] == 'w' && r.value[1..] in ModeKeys
  {
    match GetMode(tarballPath)
    case Err(e) => Err(e)
    case Ok(suffix) => if present then Ok("a") else Ok("w" + suffix)
  }

  /** The open mode of load: _get_mode first, then "r" with the compression
      suffix for an existing tarball, and FileNotFoundError otherwise. */
  function LoadMode(tarballPath: string, present: bool): (r: Result<string>)
    ensures GetMode(tarballPath).Err? ==> r == Err(UnsupportedExtension(SplitExt(tarballPath).1))
    ensures GetMode(tarballPath).Ok? && !present ==> r == Err(FileNotFound(tarballPath))
    ensures r.Ok? <==> GetMode(tarballPath).Ok? && present
    ensures r.Ok? ==> |r.value| >= 1 && r.value[0] == 'r' && r.value[1..] in ModeKeys
  {
    match GetMode(tarballPath)
    case Err(e) => Err(e)
    case Ok(suffix) => if present then Ok("r" + suffix) else Err(FileNotFound(tarballPath))
  }

  /** An unsupported extension is reported before the existence test: save and
      load both raise the same ValueError whether or not the tarball exists. */
  lemma UnsupportedBeforeExistence(tarballPath: string, present1: bool, present2: bool)
    requires GetMode(tarballPath).Err?
    ensures SaveMode(tarballPath, present1) == SaveMode(tarballPath, present2)
    ensures LoadMode(tarballPath, present1) == SaveMode(tarballPath, present2)
  {
  }

  /** A tarball save creates is read by load with the compression it was written with. */
  lemma CreatedTarballReadsBack(tarballPath: string)
    requires SaveMode(tarballPath, false).Ok?
    ensures LoadMode(tarballPath, true).Ok?
    ensures SaveMode(tarballPath, false).value == "w" + GetMode(tarballPath).value
    ensures LoadMode(tarballPath, true).value == "r" + GetMode(tarballPath).value
  {
  }
}
