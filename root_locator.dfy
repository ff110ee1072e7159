/** Locating the project root `find_project_root`
    (scripts/deploy/yaml_log.py:29-34).

    A directory is the list of components of its absolute, resolved path
    (`[]` is the filesystem root), so its parents are its proper prefixes.
    The filesystem is the predicate `isFile`: whether a regular file exists
    at a path. */
module RootLocator {

  type Path = seq<string>

  /** A located root, or the error `sys.exit` reports: the marker and the
      directory the search started from. */
  datatype Located = Found(dir: Path) | MarkerNotFound(marker: string, start: Path)

  /** `(start, *start.parents)`: start first, then each parent up to the
      filesystem root. */
  function Ancestors(start: Path): (r: seq<Path>)
    ensures |r| == |start| + 1
    ensures forall i :: 0 <= i < |r| ==> r[i] == start[..|start| - i]
  {
    if start == [] then [[]] else [start] + Ancestors(start[..|start| - 1])
  }

  /** `d / marker` names a regular file. */
  predicate HasMarker(isFile: Path -> bool, d: Path, marker: string) {
    isFile(d + [marker])
  }

  method FindProjectRoot(start: Path, isFile: Path -> bool, marker: string) returns (r: Located)
    ensures r.Found? ==>
              |r.dir| <= |start| && r.dir == start[..|r.dir|] && HasMarker(isFile, r.dir, marker)
    ensures r.Found? ==>
              forall n :: |r.dir| < n <= |start| ==> !HasMarker(isFile, start[..n], marker)
    ensures r.MarkerNotFound? <==>
              forall n :: 0 <= n <= |start| ==> !HasMarker(isFile, start[..n], marker)
    ensures r.MarkerNotFound? ==> r == MarkerNotFound(marker, start)
  {
    var candidates := Ancestors(start);
    for i := 0 to |candidates|
      invariant forall n :: |start| - i < n <= |start| ==> !HasMarker(isFile, start[..n], marker)
    {
      var d := candidates[i];
      if HasMarker(isFile, d, marker) {
        return Found(d);
      }
    }
    return MarkerNotFound(marker, start);
  }
}
