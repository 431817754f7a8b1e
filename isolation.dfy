/**
 * The guest-to-host file map (`UhyveFileMap`): which host path a guest path
 * names, given `host:guest` mount parameters. A guest path is mapped either
 * by its own entry or through its nearest mapped ancestor directory, and a
 * lookup through an ancestor caches the paths in between.
 */
module Isolation {
  import opened Common
  import opened Strings
  import opened Paths
  import Utf8

  // ---------------------------------------------------------------------
  // Mount parameters
  // ---------------------------------------------------------------------

  /**
   * `split_guest_and_host_path`: the host path is the text before the first
   * `:`, the guest path the text between the first and the second `:` (or
   * the end); anything after a second `:` is dropped. Without a `:` the
   * source panics on its second `unwrap`.
   */
  function SplitGuestAndHostPath(parameter: string): (r: (string, string))
    requires ':' in parameter
    ensures ':' !in r.1 && ':' !in r.0
    ensures |r.1| + 1 + |r.0| <= |parameter|
    ensures parameter[..|r.1|] == r.1 && parameter[|r.1|] == ':'
    ensures parameter[|r.1| + 1..|r.1| + 1 + |r.0|] == r.0
    ensures |r.1| + 1 + |r.0| == |parameter| || parameter[|r.1| + 1 + |r.0|] == ':'
  {
    var parts := Split(parameter, ':');
    SplitFirstTwo(parameter, ':');
    SplitPiecesFree(parameter, ':');
    (parts[1], parts[0])
  }

  /** The split is determined by the positions of the first and the second `:`. */
  lemma SplitGuestAndHostPathAt(parameter: string, i: nat, e: nat)
    requires i < e <= |parameter| || (i < |parameter| && e == i + 1)
    requires parameter[i] == ':'
    requires forall k :: 0 <= k < i ==> parameter[k] != ':'
    requires forall k :: i < k < e ==> parameter[k] != ':'
    requires e == |parameter| || parameter[e] == ':'
    ensures SplitGuestAndHostPath(parameter) == (parameter[i + 1..e], parameter[..i])
  {
    var r := SplitGuestAndHostPath(parameter);
    assert |r.1| == i;
  }

  /** Unit-test examples: an empty host part, and both parts empty. */
  lemma SplitGuestAndHostPathEmptyParts()
    ensures SplitGuestAndHostPath(":guest_string.conf") == ("guest_string.conf", "")
    ensures SplitGuestAndHostPath(":") == ("", "")
  {
    SplitGuestAndHostPathAt(":guest_string.conf", 0, 18);
    SplitGuestAndHostPathAt(":", 0, 1);
  }

  /** Unit-test example: a third part is dropped. */
  lemma SplitGuestAndHostPathDropsThird()
    ensures SplitGuestAndHostPath("h:g:x") == ("g", "h")
  {
    var t := "h:g:x";
    SplitGuestAndHostPathAt(t, 1, 3);
    assert t[..1] == "h" && t[2..3] == "g";
  }

  predicate AllMounts(ps: seq<string>) {
    forall k :: 0 <= k < |ps| ==> ':' in ps[k]
  }

  /** The guest part of a mount parameter. */
  function GuestOf(parameter: string): string
    requires ':' in parameter
  {
    SplitGuestAndHostPath(parameter).0
  }

  /** The host part of a mount parameter, canonicalized when the host can. */
  function HostOf(parameter: string, canonicalize: string -> Option<string>): string
    requires ':' in parameter
  {
    var host := SplitGuestAndHostPath(parameter).1;
    canonicalize(host).GetOr(host)
  }

  /** The map collected from the parameters, in order: a later guest path replaces an earlier one. */
  function Collect(ps: seq<string>, canonicalize: string -> Option<string>): (files: map<string, string>)
    requires AllMounts(ps)
    ensures files.Keys == set k | 0 <= k < |ps| :: GuestOf(ps[k])
    decreases |ps|
  {
    if ps == [] then map[]
    else
      var last := ps[|ps| - 1];
      var init := Collect(ps[..|ps| - 1], canonicalize);
      assert forall k :: 0 <= k < |ps| - 1 ==> ps[..|ps| - 1][k] == ps[k];
      init[GuestOf(last) := HostOf(last, canonicalize)]
  }

  /** A guest path maps to the host part of the last parameter that names it. */
  lemma {:induction false} CollectLastWins(ps: seq<string>, canonicalize: string -> Option<string>, i: nat)
    requires AllMounts(ps)
    requires i < |ps|
    requires forall l :: i < l < |ps| ==> GuestOf(ps[l]) != GuestOf(ps[i])
    ensures GuestOf(ps[i]) in Collect(ps, canonicalize)
    ensures Collect(ps, canonicalize)[GuestOf(ps[i])] == HostOf(ps[i], canonicalize)
    decreases |ps|
  {
    if i < |ps| - 1 {
      var init := ps[..|ps| - 1];
      assert init[i] == ps[i];
      assert forall l :: i < l < |init| ==> init[l] == ps[l];
      CollectLastWins(init, canonicalize, i);
    }
  }

  /** The files a `UhyveFileMap` starts with: none without parameters. */
  function FromParameters(parameters: Option<seq<string>>, canonicalize: string -> Option<string>): map<string, string>
    requires parameters.Some? ==> AllMounts(parameters.value)
  {
    match parameters
    case None => map[]
    case Some(ps) => Collect(ps, canonicalize)
  }

  // ---------------------------------------------------------------------
  // Resolution of a guest path
  // ---------------------------------------------------------------------

  /** The text of the ancestor of `p` made of its first `l` components. */
  function Key(p: GuestPath, l: nat): string
    requires l <= |p.parts|
  {
    Render(Prefix(p, l))
  }

  /**
   * The nearest mapped ancestor among the first `i` ancestors, searching from
   * `Prefix(p, i - 1)` up to the root (or the empty path).
   */
  function Nearest(files: map<string, string>, p: GuestPath, i: nat): (r: Option<nat>)
    requires i <= |p.parts|
    ensures r.Some? ==> r.value < i && Key(p, r.value) in files
    ensures r.Some? ==> forall l :: r.value < l < i ==> Key(p, l) !in files
    ensures r.None? ==> forall l :: 0 <= l < i ==> Key(p, l) !in files
    decreases i
  {
    if i == 0 then None
    else if Key(p, i - 1) in files then Some(i - 1)
    else Nearest(files, p, i - 1)
  }

  /**
   * The host path `get_host_path` returns for `s`: its own entry, else the
   * nearest mapped ancestor of its parent extended by the remaining
   * components, else none.
   */
  function Resolve(files: map<string, string>, s: string): Option<string> {
    if s in files then Some(files[s])
    else if |files| == 0 then None
    else
      var p := Parse(s);
      match Nearest(files, p, |p.parts|)
      case None => None
      case Some(j) => Some(Extend(files[Key(p, j)], p.parts[j..]))
  }

  /** The entries for the full paths `Prefix(p, l)`, `j < l <= i`, below the ancestor `Prefix(p, j)`. */
  function InsertFull(files: map<string, string>, p: GuestPath, j: nat, h0: string, i: nat): map<string, string>
    requires j <= i <= |p.parts|
    decreases i
  {
    if i == j then files
    else InsertFull(files, p, j, h0, i - 1)[Key(p, i) := Extend(h0, p.parts[j..i])]
  }

  /**
   * The state after pushing components `j..k` with full keys: the guest
   * path is `Prefix(p, k)`, the host path has those components pushed, and
   * each full path in between is stored.
   */
  predicate FullPushed(f0: map<string, string>, p: GuestPath, j: nat, h0: string, k: nat, g: GuestPath, h: string, files: map<string, string>) {
    j <= k <= |p.parts| && g == Prefix(p, k) && h == Extend(h0, p.parts[j..k]) && files == InsertFull(f0, p, j, h0, k)
  }

  /** One iteration of the full-key `for_each` keeps `FullPushed`. */
  lemma FullPushedStep(f0: map<string, string>, p: GuestPath, j: nat, h0: string, k: nat, g: GuestPath, h: string, files: map<string, string>)
    requires FullPushed(f0, p, j, h0, k, g, h, files) && k < |p.parts|
    ensures var g', h' := GuestPath(p.absolute, g.parts + [p.parts[k]]), HostPush(h, p.parts[k]);
            FullPushed(f0, p, j, h0, k + 1, g', h', files[Render(g') := h'])
  {
    SliceSnoc(p.parts, j, k);
    ExtendStep(h0, p.parts, j, k, h);
  }

  /** The guest path made of the components `j..k` only. */
  function Suffix(p: GuestPath, j: nat, k: nat): GuestPath
    requires j <= k <= |p.parts|
  {
    GuestPath(false, p.parts[j..k])
  }

  /** The key the source stores for `Prefix(p, k)` when the ancestor is `Prefix(p, j)`. */
  function RelativeKey(p: GuestPath, j: nat, k: nat): string
    requires j <= k <= |p.parts|
  {
    Render(Suffix(p, j, k))
  }

  /** The entries the source inserts: the keys are the components after the ancestor only. */
  function InsertRelative(files: map<string, string>, p: GuestPath, j: nat, h0: string, i: nat): map<string, string>
    requires j <= i <= |p.parts|
    decreases i
  {
    if i == j then files
    else InsertRelative(files, p, j, h0, i - 1)[RelativeKey(p, j, i) := Extend(h0, p.parts[j..i])]
  }

  /** Before the first component: the ancestor and its host path, nothing stored yet. */
  lemma FullPushedStart(f0: map<string, string>, p: GuestPath, j: nat, h0: string)
    requires j <= |p.parts|
    ensures FullPushed(f0, p, j, h0, j, Prefix(p, j), h0, f0)
  {
    assert p.parts[j..j] == [];
  }

  /** After the last component, the host path has every component from `j` on pushed. */
  lemma FullPushedDone(f0: map<string, string>, p: GuestPath, j: nat, h0: string, g: GuestPath, h: string, files: map<string, string>)
    requires FullPushed(f0, p, j, h0, |p.parts|, g, h, files)
    ensures h == Extend(h0, p.parts[j..]) && files == InsertFull(f0, p, j, h0, |p.parts|)
  {
    assert p.parts[j..|p.parts|] == p.parts[j..];
  }

  /** The state after pushing components `j..k` as written: the guest path holds just those components. */
  predicate RelativePushed(f0: map<string, string>, p: GuestPath, j: nat, h0: string, k: nat, g: GuestPath, h: string, files: map<string, string>) {
    j <= k <= |p.parts| && g == Suffix(p, j, k) && h == Extend(h0, p.parts[j..k]) && files == InsertRelative(f0, p, j, h0, k)
  }

  /** One iteration of the `for_each` as written keeps `RelativePushed`. */
  lemma RelativePushedStep(f0: map<string, string>, p: GuestPath, j: nat, h0: string, k: nat, g: GuestPath, h: string, files: map<string, string>,
                           g': GuestPath, h': string, files': map<string, string>)
    requires RelativePushed(f0, p, j, h0, k, g, h, files) && k < |p.parts|
    requires g' == GuestPath(false, g.parts + [p.parts[k]]) && h' == HostPush(h, p.parts[k]) && files' == files[Render(g') := h']
    ensures RelativePushed(f0, p, j, h0, k + 1, g', h', files')
  {
    SliceSnoc(p.parts, j, k);
    ExtendStep(h0, p.parts, j, k, h);
  }

  /** Before the first component: the host path of the ancestor and an empty guest path. */
  lemma RelativePushedStart(f0: map<string, string>, p: GuestPath, j: nat, h0: string)
    requires j <= |p.parts|
    ensures RelativePushed(f0, p, j, h0, j, GuestPath(false, []), h0, f0)
  {
    assert p.parts[j..j] == [];
  }

  /** After the last component, the host path has every component from `j` on pushed. */
  lemma RelativePushedDone(f0: map<string, string>, p: GuestPath, j: nat, h0: string, g: GuestPath, h: string, files: map<string, string>)
    requires RelativePushed(f0, p, j, h0, |p.parts|, g, h, files)
    ensures h == Extend(h0, p.parts[j..]) && files == InsertRelative(f0, p, j, h0, |p.parts|)
  {
    assert p.parts[j..|p.parts|] == p.parts[j..];
  }

  /** The files after a lookup of `s` that caches full guest paths. */
  function Cached(files: map<string, string>, s: string): map<string, string> {
    if s in files || |files| == 0 then files
    else
      var p := Parse(s);
      match Nearest(files, p, |p.parts|)
      case None => files
      case Some(j) => InsertFull(files, p, j, files[Key(p, j)], |p.parts|)
  }

  /** The files after a lookup of `s` as the source performs it. */
  function CachedAsWritten(files: map<string, string>, s: string): map<string, string> {
    if s in files || |files| == 0 then files
    else
      var p := Parse(s);
      match Nearest(files, p, |p.parts|)
      case None => files
      case Some(j) => InsertRelative(files, p, j, files[Key(p, j)], |p.parts|)
  }

  // ---------------------------------------------------------------------
  // The map object
  // ---------------------------------------------------------------------

  class UhyveFileMap {
    var files: map<string, string>

    /**
     * `UhyveFileMap::new`: one entry per parameter, guest part to host part
     * (canonicalized when the host can); no entries without parameters.
     */
    constructor (parameters: Option<seq<string>>, canonicalize: string -> Option<string>)
      requires parameters.Some? ==> AllMounts(parameters.value)
      ensures files == FromParameters(parameters, canonicalize)
    {
      files := FromParameters(parameters, canonicalize);
    }

    /**
     * `get_host_path` as the source performs it: an exact hit returns the
     * stored path; otherwise the ancestors of the parent are tried from the
     * nearest up, and on a hit every path between the ancestor and the
     * requested one is inserted, keyed by its components after the ancestor.
     */
    method GetHostPathAsWritten(guestPath: string) returns (host: Option<string>)
      modifies this
      ensures host == Resolve(old(files), guestPath)
      ensures files == CachedAsWritten(old(files), guestPath)
    {
      if guestPath in files {
        return Some(files[guestPath]);
      }
      if |files| == 0 {
        return None;
      }
      var p := Parse(guestPath);
      var j: nat := |p.parts|;
      while j > 0
        invariant j <= |p.parts|
        invariant files == old(files)
        invariant Nearest(files, p, |p.parts|) == Nearest(files, p, j)
      {
        j := j - 1;
        var ancestor := Render(Prefix(p, j));
        if ancestor in files {
          var hostPath := PushSuffixAsWritten(p, j);
          return Some(hostPath);
        }
      }
      return None;
    }

    /**
     * The `for_each` over the components after the ancestor `Prefix(p, j)`,
     * as written: each step pushes the component onto the host path and onto
     * a guest path that starts empty, and inserts the pair.
     */
    method PushSuffixAsWritten(p: GuestPath, j: nat) returns (hostPath: string)
      requires j < |p.parts| && Key(p, j) in files
      modifies this
      ensures hostPath == Extend(old(files)[Key(p, j)], p.parts[j..])
      ensures files == InsertRelative(old(files), p, j, old(files)[Key(p, j)], |p.parts|)
    {
      ghost var h0 := files[Key(p, j)];
      hostPath := files[Key(p, j)];
      var newGuestPath := GuestPath(false, []);
      var k := j;
      RelativePushedStart(files, p, j, h0);
      while k < |p.parts|
        invariant RelativePushed(old(files), p, j, h0, k, newGuestPath, hostPath, files)
      {
        newGuestPath, hostPath := PushComponentAsWritten(old(files), p, j, h0, k, newGuestPath, hostPath);
        k := k + 1;
      }
      RelativePushedDone(old(files), p, j, h0, newGuestPath, hostPath, files);
    }

    /**
     * One step of the `for_each` as written: the component is pushed onto
     * the guest path and the host path, and the pair is inserted.
     */
    method PushComponentAsWritten(ghost f0: map<string, string>, p: GuestPath, j: nat, ghost h0: string, k: nat,
                                  g: GuestPath, h: string) returns (g': GuestPath, h': string)
      requires k < |p.parts| && RelativePushed(f0, p, j, h0, k, g, h, files)
      modifies this
      ensures RelativePushed(f0, p, j, h0, k + 1, g', h', files)
    {
      h' := HostPush(h, p.parts[k]);
      g' := GuestPath(false, g.parts + [p.parts[k]]);
      RelativePushedStep(f0, p, j, h0, k, g, h, files, g', h', files[Render(g') := h']);
      files := files[Render(g') := h'];
    }

    /**
     * `get_host_path` with the cache keyed by full guest paths: same result,
     * and what any path resolves to stays the same (`CachedTransparent`).
     */
    method GetHostPath(guestPath: string) returns (host: Option<string>)
      modifies this
      ensures host == Resolve(old(files), guestPath)
      ensures files == Cached(old(files), guestPath)
    {
      if guestPath in files {
        return Some(files[guestPath]);
      }
      if |files| == 0 {
        return None;
      }
      var p := Parse(guestPath);
      var j: nat := |p.parts|;
      while j > 0
        invariant j <= |p.parts|
        invariant files == old(files)
        invariant Nearest(files, p, |p.parts|) == Nearest(files, p, j)
      {
        j := j - 1;
        var ancestor := Render(Prefix(p, j));
        if ancestor in files {
          var hostPath := PushSuffix(p, j);
          return Some(hostPath);
        }
      }
      return None;
    }

    /**
     * The `for_each` with full keys: the guest path starts at the ancestor,
     * so each inserted key is the full guest path of its host path.
     */
    method PushSuffix(p: GuestPath, j: nat) returns (hostPath: string)
      requires j < |p.parts| && Key(p, j) in files
      modifies this
      ensures hostPath == Extend(old(files)[Key(p, j)], p.parts[j..])
      ensures files == InsertFull(old(files), p, j, old(files)[Key(p, j)], |p.parts|)
    {
      var f0 := files;
      var entries := files;
      ghost var h0 := f0[Key(p, j)];
      hostPath := f0[Key(p, j)];
      var newGuestPath := Prefix(p, j);
      var k := j;
      FullPushedStart(f0, p, j, h0);
      while k < |p.parts|
        invariant FullPushed(f0, p, j, h0, k, newGuestPath, hostPath, entries)
      {
        FullPushedStep(f0, p, j, h0, k, newGuestPath, hostPath, entries);
        hostPath := HostPush(hostPath, p.parts[k]);
        newGuestPath := GuestPath(p.absolute, newGuestPath.parts + [p.parts[k]]);
        k := k + 1;
        entries := entries[Render(newGuestPath) := hostPath];
      }
      FullPushedDone(f0, p, j, h0, newGuestPath, hostPath, entries);
      files := entries;
    }

    /**
     * `append_file_and_return_cstring`: the guest path now names `hostPath`,
     * replacing any earlier entry, and the result is the host path's bytes
     * (the body of a C string, so without 0 bytes). A host path holding a
     * NUL makes `CString::new(..).unwrap()` panic; `None` stands for that
     * panic, which comes after the entry is inserted.
     */
    method AppendFileAndReturnCString(guestPath: string, hostPath: string) returns (cstring: Option<seq<u8>>)
      modifies this
      ensures files == old(files)[guestPath := hostPath]
      ensures cstring.Some? <==> '\0' !in hostPath
      ensures cstring.Some? ==> cstring.value == Utf8.Encode(hostPath)
      ensures cstring.Some? ==> forall k :: 0 <= k < |cstring.value| ==> cstring.value[k] != 0
    {
      files := files[guestPath := hostPath];
      if '\0' in hostPath {
        cstring := None;
      } else {
        Utf8.EncodeNoNul(hostPath);
        cstring := Some(Utf8.Encode(hostPath));
      }
    }
  }

  // ---------------------------------------------------------------------
  // Properties of a lookup
  // ---------------------------------------------------------------------

  /** An exact hit, an empty map and a miss of every ancestor leave the files unchanged. */
  lemma LookupWithoutAncestorHit(files: map<string, string>, s: string)
    requires s in files || |files| == 0 || Resolve(files, s).None?
    ensures Cached(files, s) == files && CachedAsWritten(files, s) == files
    ensures s in files ==> Resolve(files, s) == Some(files[s])
    ensures s !in files && |files| == 0 ==> Resolve(files, s).None?
  {
  }

  /** Different ancestors of a valid path have different texts. */
  lemma KeysDistinct(p: GuestPath, l: nat, i: nat)
    requires Valid(p) && l < i <= |p.parts|
    ensures Key(p, l) != Key(p, i)
  {
    if Key(p, l) == Key(p, i) {
      RenderInjective(Prefix(p, l), Prefix(p, i));
    }
  }

  /** `InsertFull` stores each full path between the ancestor and `Prefix(p, i)`. */
  lemma {:induction false} InsertFullNew(files: map<string, string>, p: GuestPath, j: nat, h0: string, i: nat, l: nat)
    requires Valid(p) && j < l <= i <= |p.parts|
    ensures Key(p, l) in InsertFull(files, p, j, h0, i)
    ensures InsertFull(files, p, j, h0, i)[Key(p, l)] == Extend(h0, p.parts[j..l])
    decreases i
  {
    var before := InsertFull(files, p, j, h0, i - 1);
    assert InsertFull(files, p, j, h0, i) == before[Key(p, i) := Extend(h0, p.parts[j..i])];
    if l < i {
      InsertFullNew(files, p, j, h0, i - 1, l);
      KeysDistinct(p, l, i);
    }
  }

  /** `InsertFull` keeps every old entry whose key is not one of the new full paths. */
  lemma {:induction false} InsertFullOld(files: map<string, string>, p: GuestPath, j: nat, h0: string, i: nat, key: string)
    requires j <= i <= |p.parts| && key in files
    requires forall l :: j < l <= i ==> key != Key(p, l)
    ensures key in InsertFull(files, p, j, h0, i) && InsertFull(files, p, j, h0, i)[key] == files[key]
    decreases i
  {
    if i > j {
      InsertFullOld(files, p, j, h0, i - 1, key);
    }
  }

  /** `InsertFull` removes nothing. */
  lemma {:induction false} InsertFullKeeps(files: map<string, string>, p: GuestPath, j: nat, h0: string, i: nat, key: string)
    requires j <= i <= |p.parts| && key in files
    ensures key in InsertFull(files, p, j, h0, i)
    decreases i
  {
    if i > j {
      InsertFullKeeps(files, p, j, h0, i - 1, key);
    }
  }

  /** A key `InsertFull` adds is one of the new full paths. */
  lemma {:induction false} InsertFullOnly(files: map<string, string>, p: GuestPath, j: nat, h0: string, i: nat, key: string)
    requires j <= i <= |p.parts|
    requires key in InsertFull(files, p, j, h0, i) && key !in files
    ensures exists l :: j < l <= i && key == Key(p, l)
    decreases i
  {
    if i > j && key != Key(p, i) {
      InsertFullOnly(files, p, j, h0, i - 1, key);
    }
  }

  /** `InsertRelative` removes nothing. */
  lemma {:induction false} InsertRelativeKeeps(files: map<string, string>, p: GuestPath, j: nat, h0: string, i: nat, key: string)
    requires j <= i <= |p.parts| && key in files
    ensures key in InsertRelative(files, p, j, h0, i)
    decreases i
  {
    if i > j {
      InsertRelativeKeeps(files, p, j, h0, i - 1, key);
    }
  }

  /** A lookup never removes a key, whether it caches full or relative guest paths. */
  lemma LookupKeepsKeys(files: map<string, string>, s: string, key: string)
    requires key in files
    ensures key in Cached(files, s) && key in CachedAsWritten(files, s)
  {
    if !(s in files || |files| == 0) {
      var p := Parse(s);
      var near := Nearest(files, p, |p.parts|);
      if near.Some? {
        var j := near.value;
        InsertFullKeeps(files, p, j, files[Key(p, j)], |p.parts|, key);
        InsertRelativeKeeps(files, p, j, files[Key(p, j)], |p.parts|, key);
      }
    }
  }

  /** If ancestor `m` is mapped and none above it among the first `i` is, `m` is the nearest. */
  lemma NearestIs(files: map<string, string>, r: GuestPath, i: nat, m: nat)
    requires i <= |r.parts| && m < i
    requires Key(r, m) in files
    requires forall l :: m < l < i ==> Key(r, l) !in files
    ensures Nearest(files, r, i) == Some(m)
  {
  }

  /** The ancestors of an ancestor are ancestors. */
  lemma PrefixOfPrefix(p: GuestPath, l: nat, m: nat)
    requires m <= l <= |p.parts|
    ensures Prefix(Prefix(p, l), m) == Prefix(p, m)
    ensures Key(Prefix(p, l), m) == Key(p, m)
  {
    assert p.parts[..l][..m] == p.parts[..m];
  }

  /**
   * The situation after a lookup of `Render(p)` through the ancestor
   * `Prefix(p, j)`: that ancestor is mapped, none below it and not the path
   * itself.
   */
  predicate AncestorHit(files: map<string, string>, p: GuestPath, j: nat) {
    Valid(p) && j < |p.parts| && Key(p, j) in files
    && forall l :: j < l <= |p.parts| ==> Key(p, l) !in files
  }

  /** A path between the ancestor and the looked-up path resolves to what the cache stores for it. */
  lemma ResolveBetween(files: map<string, string>, p: GuestPath, j: nat, l: nat)
    requires AncestorHit(files, p, j) && j < l <= |p.parts|
    ensures Resolve(files, Key(p, l)) == Some(Extend(files[Key(p, j)], p.parts[j..l]))
  {
    var r := Prefix(p, l);
    ParseRender(r);
    forall m | j <= m < l
      ensures Key(r, m) == Key(p, m)
    {
      PrefixOfPrefix(p, l, m);
    }
    NearestIs(files, r, l, j);
    assert r.parts[j..] == p.parts[j..l];
  }

  /** A path that the cache does not name resolves as before. */
  lemma ResolveUncached(files: map<string, string>, p: GuestPath, j: nat, q: string)
    requires AncestorHit(files, p, j)
    requires q !in InsertFull(files, p, j, files[Key(p, j)], |p.parts|)
    ensures Resolve(InsertFull(files, p, j, files[Key(p, j)], |p.parts|), q) == Resolve(files, q)
  {
    var n := |p.parts|;
    var h0 := files[Key(p, j)];
    var after := InsertFull(files, p, j, h0, n);
    InsertFullKeeps(files, p, j, h0, n, Key(p, j));
    assert q !in files by {
      if q in files {
        InsertFullKeeps(files, p, j, h0, n, q);
      }
    }
    var r := Parse(q);
    var nr := |r.parts|;
    assert |after| != 0 && |files| != 0;
    var nearAfter := Nearest(after, r, nr);
    if nearAfter.Some? {
      var m := nearAfter.value;
      var key := Key(r, m);
      assert Resolve(after, q) == Some(Extend(after[key], r.parts[m..]));
      if key in files {
        UncachedThroughOld(files, p, j, r, m);
        assert Resolve(files, q) == Some(Extend(files[key], r.parts[m..]));
      } else {
        InsertFullOnly(files, p, j, h0, n, key);
        var l :| j < l <= n && key == Key(p, l);
        UncachedThroughNew(files, p, j, r, m, l);
        assert Resolve(files, q) == Some(Extend(files[Key(r, j)], r.parts[j..]));
      }
    } else {
      assert Resolve(after, q).None?;
      forall l | 0 <= l < nr
        ensures Key(r, l) !in files
      {
        if Key(r, l) in files {
          InsertFullKeeps(files, p, j, h0, n, Key(r, l));
        }
      }
      assert Nearest(files, r, nr).None?;
    }
  }

  /** The nearest ancestor after caching is an old entry: it was the nearest before, with the same value. */
  lemma UncachedThroughOld(files: map<string, string>, p: GuestPath, j: nat, r: GuestPath, m: nat)
    requires AncestorHit(files, p, j)
    requires m < |r.parts|
    requires Nearest(InsertFull(files, p, j, files[Key(p, j)], |p.parts|), r, |r.parts|) == Some(m)
    requires Key(r, m) in files
    ensures Nearest(files, r, |r.parts|) == Some(m)
    ensures InsertFull(files, p, j, files[Key(p, j)], |p.parts|)[Key(r, m)] == files[Key(r, m)]
  {
    var h0 := files[Key(p, j)];
    var n := |p.parts|;
    forall l | m < l < |r.parts|
      ensures Key(r, l) !in files
    {
      if Key(r, l) in files {
        InsertFullKeeps(files, p, j, h0, n, Key(r, l));
      }
    }
    NearestIs(files, r, |r.parts|, m);
    InsertFullOld(files, p, j, h0, n, Key(r, m));
  }

  /**
   * The nearest ancestor after caching is the new entry `Prefix(p, l)`: before
   * caching the nearest was `Prefix(p, j)`, and extending through it yields
   * the same host path.
   */
  lemma UncachedThroughNew(files: map<string, string>, p: GuestPath, j: nat, r: GuestPath, m: nat, l: nat)
    requires AncestorHit(files, p, j) && Valid(r)
    requires m < |r.parts| && j < l <= |p.parts|
    requires Nearest(InsertFull(files, p, j, files[Key(p, j)], |p.parts|), r, |r.parts|) == Some(m)
    requires Key(r, m) == Key(p, l)
    ensures Nearest(files, r, |r.parts|) == Some(j) && Key(r, j) == Key(p, j)
    ensures Key(r, m) in InsertFull(files, p, j, files[Key(p, j)], |p.parts|)
    ensures Extend(InsertFull(files, p, j, files[Key(p, j)], |p.parts|)[Key(r, m)], r.parts[m..])
            == Extend(files[Key(p, j)], r.parts[j..])
  {
    var h0 := files[Key(p, j)];
    var n := |p.parts|;
    RenderInjective(Prefix(r, m), Prefix(p, l));
    assert m == l by {
      assert |Prefix(r, m).parts| == m;
    }
    assert r.parts[..m] == p.parts[..l];
    forall m2 | j <= m2 <= m
      ensures Key(r, m2) == Key(p, m2)
    {
      PrefixOfPrefix(r, m, m2);
      PrefixOfPrefix(p, l, m2);
    }
    forall l2 | j < l2 < |r.parts|
      ensures Key(r, l2) !in files
    {
      if l2 <= m {
        assert Key(r, l2) == Key(p, l2);
      } else if Key(r, l2) in files {
        InsertFullKeeps(files, p, j, h0, n, Key(r, l2));
      }
    }
    NearestIs(files, r, |r.parts|, j);
    InsertFullNew(files, p, j, h0, n, l);
    SliceAcross(r.parts, p.parts, j, l);
    ExtendAppend(h0, p.parts[j..l], r.parts[l..]);
  }

  /**
   * Caching full guest paths is transparent: after a lookup of a path in
   * normal form, every path resolves to what it resolved to before.
   */
  lemma CachedTransparent(files: map<string, string>, s: string, q: string)
    requires Render(Parse(s)) == s
    ensures Resolve(Cached(files, s), q) == Resolve(files, q)
  {
    if s in files || |files| == 0 {
      return;
    }
    var p := Parse(s);
    var n := |p.parts|;
    var nearest := Nearest(files, p, n);
    if nearest.None? {
      return;
    }
    var j := nearest.value;
    var h0 := files[Key(p, j)];
    var after := Cached(files, s);
    assert after == InsertFull(files, p, j, h0, n);
    assert Key(p, n) == s by {
      assert p.parts[..n] == p.parts;
    }
    assert AncestorHit(files, p, j);
    if q in after {
      if q !in files {
        InsertFullOnly(files, p, j, h0, n, q);
        var l :| j < l <= n && q == Key(p, l);
        ResolveBetween(files, p, j, l);
        InsertFullNew(files, p, j, h0, n, l);
      } else {
        InsertFullOld(files, p, j, h0, n, q);
      }
    } else {
      ResolveUncached(files, p, j, q);
    }
  }

  /**
   * The cache as written changes what other paths resolve to: with `d`
   * mapped to `h` and `x` to `k`, looking up `d/x` stores `x -> h/x`, and
   * `x` no longer resolves to `k`.
   */
  lemma AsWrittenCacheShadowsMapping()
    ensures var files := map["d" := "h", "x" := "k"];
            Resolve(files, "x") == Some("k")
            && Resolve(CachedAsWritten(files, "d/x"), "x") == Some("h/x")
  {
    var files := map["d" := "h", "x" := "k"];
    var s := "d/x";
    assert IndexOf(s, '/') == 1;
    assert s[..1] == "d" && s[2..] == "x";
    assert Split(s, '/') == ["d"] + Split("x", '/');
    assert Split(s, '/') == ["d", "x"];
    var p := Parse(s);
    assert p == GuestPath(false, ["d", "x"]);
    assert Key(p, 1) == "d";
    assert Nearest(files, p, 2) == Some(1);
    assert Render(GuestPath(false, p.parts[1..2])) == "x";
    assert Extend("h", ["x"]) == "h/x";
    assert CachedAsWritten(files, s) == files["x" := "h/x"];
  }

  /** After `append_file_and_return_cstring`, the guest path resolves to the appended host path. */
  lemma AppendedResolves(files: map<string, string>, guestPath: string, hostPath: string)
    ensures Resolve(files[guestPath := hostPath], guestPath) == Some(hostPath)
  {
  }
}
