/**
 * Where `main` in src/main.rs stages its output.  The destination "-" is
 * standard output and needs no temporary file.  Otherwise the temporary file
 * is created in the `--tempdir` directory when one is given, and nowhere
 * else; without it, in the destination's parent directory, falling back to
 * the system temporary directory when there is no parent or creation there
 * fails.  Creating a file is I/O: whether it succeeds in a location is the
 * parameter `creates`, and `Path::parent` of the destination is the
 * parameter `parent`.
 */
module Staging {
  import opened Wrappers

  /** A directory where a temporary file can be created. */
  datatype Location =
    | Dir(path: string)  // `NamedTempFile::new_in(path)`
    | SystemTemp         // `NamedTempFile::new()`: the system-wide temporary directory

  /** Where the output goes before it reaches the destination. */
  datatype Staging =
    | Stdout              // the destination is "-": written directly, no temporary file
    | TempFile(at: Location)
    | Unavailable         // `main` fails with "Failed to open temporary file", before downloading

  /** The locations tried, in order, and the outcome. */
  datatype Decision = Decision(tried: seq<Location>, staging: Staging)

  /** The reserved destination meaning standard output (`destfile.to_str() == Some("-")`). */
  const StdoutMarker := "-"

  /** One creation attempt in `loc`: `NamedTempFile::new_in(loc)`, or `NamedTempFile::new()` for `SystemTemp`. */
  function NewIn(loc: Location, creates: Location -> bool): Decision
  {
    Decision([loc], if creates(loc) then TempFile(loc) else Unavailable)
  }

  /**
   * The staging decision of `main`.  For "-" nothing is tried.  An explicit
   * temporary directory is the only location tried.  Otherwise the parent of
   * the destination is tried first (a destination without a parent skips
   * it, as `ok_or_else` turns the missing parent into an error), and the
   * system temporary directory only when that did not give a file.
   */
  function ChooseStaging(destfile: string, tempdir: Option<string>, parent: Option<string>,
                         creates: Location -> bool): (d: Decision)
    ensures d.staging == Stdout <==> destfile == StdoutMarker
    ensures destfile == StdoutMarker ==> d.tried == []
    ensures destfile != StdoutMarker && tempdir.Some? ==> d.tried == [Dir(tempdir.value)]
    ensures destfile != StdoutMarker && tempdir.None? && parent.Some? ==>
      d.tried != [] && d.tried[0] == Dir(parent.value) && (SystemTemp in d.tried <==> !creates(Dir(parent.value)))
    ensures destfile != StdoutMarker && tempdir.None? && parent.None? ==> d.tried == [SystemTemp]
    ensures d.staging.TempFile? ==> d.tried != [] && d.staging.at == d.tried[|d.tried| - 1] && creates(d.staging.at)
    ensures d.staging == Unavailable ==> forall i :: 0 <= i < |d.tried| ==> !creates(d.tried[i])
  {
    if destfile == StdoutMarker then Decision([], Stdout)
    else match tempdir
      case Some(dir) => NewIn(Dir(dir), creates)
      case None =>
        var fromParent := match parent
          case Some(p) => NewIn(Dir(p), creates)
          case None => Decision([], Unavailable);
        if fromParent.staging.TempFile? then fromParent
        else
          var fallback := NewIn(SystemTemp, creates);
          Decision(fromParent.tried + fallback.tried, fallback.staging)
  }

  /** Reference behaviour: try `locs` in order and stop at the first location where creation succeeds. */
  function TryInOrder(locs: seq<Location>, creates: Location -> bool): (d: Decision)
    ensures d.staging != Stdout
    ensures |d.tried| <= |locs| && d.tried == locs[..|d.tried|]
    ensures forall i :: 0 <= i < |d.tried| - 1 ==> !creates(d.tried[i])
    ensures d.staging.TempFile? <==> exists i :: 0 <= i < |locs| && creates(locs[i])
    ensures d.staging.TempFile? ==> d.tried != [] && d.staging.at == d.tried[|d.tried| - 1] && creates(d.staging.at)
    ensures d.staging == Unavailable ==> d.tried == locs
  {
    if locs == [] then Decision([], Unavailable)
    else if creates(locs[0]) then Decision([locs[0]], TempFile(locs[0]))
    else
      var rest := TryInOrder(locs[1..], creates);
      assert forall i :: 1 <= i < |locs| ==> locs[i] == locs[1..][i - 1];
      Decision([locs[0]] + rest.tried, rest.staging)
  }

  /** The locations `main` considers, in order, for a destination other than "-". */
  function Candidates(tempdir: Option<string>, parent: Option<string>): (locs: seq<Location>)
    ensures tempdir.Some? ==> locs == [Dir(tempdir.value)]
    ensures tempdir.None? ==> locs != [] && locs[|locs| - 1] == SystemTemp
    ensures tempdir.None? && parent.Some? ==> |locs| == 2 && locs[0] == Dir(parent.value)
    ensures tempdir.None? && parent.None? ==> locs == [SystemTemp]
  {
    match tempdir
    case Some(dir) => [Dir(dir)]
    case None =>
      match parent
      case Some(p) => [Dir(p), SystemTemp]
      case None => [SystemTemp]
  }

  /**
   * For a file destination, `main` tries its candidate locations in order and
   * stops at the first success: an explicit temporary directory has no
   * fallback, and the system temporary directory is the last resort.
   */
  lemma ChooseStagingTriesInOrder(destfile: string, tempdir: Option<string>, parent: Option<string>,
                                  creates: Location -> bool)
    requires destfile != StdoutMarker
    ensures ChooseStaging(destfile, tempdir, parent, creates) == TryInOrder(Candidates(tempdir, parent), creates)
  {
  }
}
