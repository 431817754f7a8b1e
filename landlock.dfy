/**
 * The choice of host directories that the Landlock sandbox whitelists
 * (`UhyveLandlockWrapper`). Each mapped host path is whitelisted itself
 * when it exists, and otherwise its parent directory is. Whether a path
 * exists on the host is the function parameter `onHost`.
 */
module Landlock {
  import opened Paths
  import Isolation

  /**
   * `PathBuf::pop`: the path without its last component. A path without
   * components (empty, or the root) stays as it is.
   */
  function Pop(h: string): string {
    var p := Parse(h);
    if p.parts == [] then h else Render(Prefix(p, |p.parts| - 1))
  }

  /** Popping removes exactly the last component and keeps the root. */
  lemma PopIsParent(h: string)
    requires Parse(h).parts != []
    ensures Parse(Pop(h)) == Prefix(Parse(h), |Parse(h).parts| - 1)
  {
    var p := Parse(h);
    ParseRender(Prefix(p, |p.parts| - 1));
  }

  /** The directory `get_parent_directory` settles on: the path when it exists, else its parent. */
  function ParentDirectory(hostPath: string, onHost: string -> bool): string
    requires onHost(hostPath) || onHost(Pop(hostPath))
  {
    if onHost(hostPath) then hostPath else Pop(hostPath)
  }

  /**
   * `get_parent_directory`: at most two candidates are tried, the path and
   * then its parent; the first that exists is returned. When neither exists
   * the source panics.
   */
  method GetParentDirectory(hostPath: string, onHost: string -> bool) returns (r: string)
    requires onHost(hostPath) || onHost(Pop(hostPath))
    ensures r == ParentDirectory(hostPath, onHost)
    ensures onHost(r)
  {
    var iterations := 2;
    var hostPathbuf := hostPath;
    for i := 0 to iterations
      invariant i == 0 ==> hostPathbuf == hostPath
      invariant i == 1 ==> hostPathbuf == Pop(hostPath)
      invariant i >= 1 ==> !onHost(hostPath)
      invariant i >= 2 ==> !onHost(Pop(hostPath))
    {
      if onHost(hostPathbuf) {
        return hostPathbuf;
      } else {
        hostPathbuf := Pop(hostPathbuf);
      }
    }
    assert false;
  }

  /** The selected directory is the path itself or its parent: an ancestor at most one level up. */
  lemma ParentDirectoryIsAncestor(hostPath: string, onHost: string -> bool)
    requires onHost(hostPath) || onHost(Pop(hostPath))
    ensures var p, q := Parse(hostPath), Parse(ParentDirectory(hostPath, onHost));
            q.absolute == p.absolute
            && |p.parts| - 1 <= |q.parts| <= |p.parts|
            && q.parts == p.parts[..|q.parts|]
  {
    var p := Parse(hostPath);
    if !onHost(hostPath) && p.parts != [] {
      PopIsParent(hostPath);
    }
  }

  /** The whitelisted host paths and uhyve's own paths. */
  datatype UhyveLandlockWrapper = UhyveLandlockWrapper(whitelistedPaths: seq<string>, uhyvePaths: seq<string>)

  /** The host part of a `host:guest` mapping. */
  function HostPart(mapping: string): string
    requires ':' in mapping
  {
    Isolation.SplitGuestAndHostPath(mapping).1
  }

  /** Every mapping has a `:` and a host path or parent that exists. */
  predicate Selectable(mappings: seq<string>, onHost: string -> bool) {
    Isolation.AllMounts(mappings)
    && forall i :: 0 <= i < |mappings| ==> onHost(HostPart(mappings[i])) || onHost(Pop(HostPart(mappings[i])))
  }

  /**
   * `UhyveLandlockWrapper::new`: one whitelisted directory per mapping, in
   * order, selected from the mapping's host part; uhyve's paths are kept
   * as given.
   */
  method New(mappings: seq<string>, uhyvePaths: seq<string>, onHost: string -> bool) returns (w: UhyveLandlockWrapper)
    requires Selectable(mappings, onHost)
    ensures |w.whitelistedPaths| == |mappings|
    ensures forall i :: 0 <= i < |mappings| ==>
              w.whitelistedPaths[i] == ParentDirectory(HostPart(mappings[i]), onHost)
    ensures forall i :: 0 <= i < |mappings| ==> onHost(w.whitelistedPaths[i])
    ensures w.uhyvePaths == uhyvePaths
  {
    var whitelistedPaths := [];
    for i := 0 to |mappings|
      invariant |whitelistedPaths| == i
      invariant forall k :: 0 <= k < i ==> whitelistedPaths[k] == ParentDirectory(HostPart(mappings[k]), onHost)
      invariant forall k :: 0 <= k < i ==> onHost(whitelistedPaths[k])
    {
      var hostPath := HostPart(mappings[i]);
      assert onHost(hostPath) || onHost(Pop(hostPath));
      var dir := GetParentDirectory(hostPath, onHost);
      ghost var before := whitelistedPaths;
      whitelistedPaths := whitelistedPaths + [dir];
      assert whitelistedPaths[..i] == before && whitelistedPaths[i] == dir;
    }
    w := UhyveLandlockWrapper(whitelistedPaths, uhyvePaths);
  }
}
