/**
 * Paths as `std::path::Path` sees them: an optional root followed by the
 * names of its components, together with the text of a path and
 * `PathBuf::push` of a relative component onto a host path.
 */
module Paths {
  import opened Strings

  /** A path: rooted (`/a/b`) or relative (`a/b`), and its component names. */
  datatype GuestPath = GuestPath(absolute: bool, parts: seq<string>)

  /** A normal component: not empty, not `.`, no separator. */
  predicate Name(c: string) {
    c != "" && c != "." && '/' !in c
  }

  predicate Valid(p: GuestPath) {
    forall k :: 0 <= k < |p.parts| ==> Name(p.parts[k])
  }

  /** The pieces of a `/`-split that are component names. */
  function Names(segs: seq<string>): (ns: seq<string>)
    ensures forall k :: 0 <= k < |ns| ==> ns[k] != "" && ns[k] != "."
    ensures |ns| <= |segs|
  {
    if segs == [] then []
    else if segs[0] == "" || segs[0] == "." then Names(segs[1..])
    else [segs[0]] + Names(segs[1..])
  }

  /** The components of a path string: empty and `.` pieces are skipped. */
  function Parse(s: string): (p: GuestPath)
    ensures Valid(p)
  {
    SplitPiecesFree(s, '/');
    NamesFree(Split(s, '/'));
    GuestPath(|s| > 0 && s[0] == '/', Names(Split(s, '/')))
  }

  /** Names keeps only pieces of its input, so separator-free pieces stay free. */
  lemma {:induction false} NamesFree(segs: seq<string>)
    requires forall k :: 0 <= k < |segs| ==> '/' !in segs[k]
    ensures forall k :: 0 <= k < |Names(segs)| ==> '/' !in Names(segs)[k]
  {
    if segs != [] {
      NamesFree(segs[1..]);
    }
  }

  /** The text of the components, separated by `/`. */
  function JoinNames(parts: seq<string>): string {
    if parts == [] then "" else Join(parts, '/')
  }

  /** The text of a path: `/` before the components of a rooted path. */
  function Render(p: GuestPath): string {
    if p.absolute then "/" + JoinNames(p.parts) else JoinNames(p.parts)
  }

  /** The ancestor made of the first `j` components. */
  function Prefix(p: GuestPath, j: nat): (a: GuestPath)
    requires j <= |p.parts|
    ensures Valid(p) ==> Valid(a)
  {
    GuestPath(p.absolute, p.parts[..j])
  }

  /** Names of valid components are kept unchanged. */
  lemma {:induction false} NamesOfNames(parts: seq<string>)
    requires forall k :: 0 <= k < |parts| ==> Name(parts[k])
    ensures Names(parts) == parts
  {
    if parts != [] {
      NamesOfNames(parts[1..]);
    }
  }

  /** Splitting after a leading separator yields an empty first piece. */
  lemma SplitLeadingSeparator(x: string)
    ensures Split("/" + x, '/') == [""] + Split(x, '/')
  {
    var s := "/" + x;
    assert IndexOf(s, '/') == 0;
    assert s[1..] == x;
  }

  /** The text of a valid path parses back to the same path. */
  lemma ParseRender(p: GuestPath)
    requires Valid(p)
    ensures Parse(Render(p)) == p
  {
    var body := JoinNames(p.parts);
    assert Names(Split(body, '/')) == p.parts by {
      if p.parts == [] {
        assert Split("", '/') == [""];
      } else {
        SplitJoin(p.parts, '/');
        NamesOfNames(p.parts);
      }
    }
    if p.absolute {
      SplitLeadingSeparator(body);
      assert Names([""] + Split(body, '/')) == Names(Split(body, '/'));
    } else if p.parts != [] {
      JoinStartsWithFirst(p.parts);
    }
  }

  /** A join starts with its first piece. */
  lemma JoinStartsWithFirst(parts: seq<string>)
    requires |parts| >= 1 && parts[0] != ""
    ensures |Join(parts, '/')| > 0 && Join(parts, '/')[0] == parts[0][0]
  {
  }

  /** Different valid paths have different texts. */
  lemma RenderInjective(p: GuestPath, q: GuestPath)
    requires Valid(p) && Valid(q)
    requires Render(p) == Render(q)
    ensures p == q
  {
    ParseRender(p);
    ParseRender(q);
  }

  /**
   * `PathBuf::push` of a relative component: the component is appended,
   * with a `/` in between unless the path is empty or already ends in `/`.
   */
  function HostPush(h: string, c: string): (r: string)
    ensures |r| >= |h| + |c|
    ensures r[..|h|] == h
  {
    if h == "" then c
    else if h[|h| - 1] == '/' then h + c
    else h + "/" + c
  }

  /** A host path with the components `cs` pushed one after the other. */
  function Extend(h: string, cs: seq<string>): string
    decreases |cs|
  {
    if cs == [] then h else Extend(HostPush(h, cs[0]), cs[1..])
  }

  /** Pushing `a + b` is pushing `a`, then `b`. */
  lemma {:induction false} ExtendAppend(h: string, a: seq<string>, b: seq<string>)
    ensures Extend(h, a + b) == Extend(Extend(h, a), b)
    decreases |a|
  {
    if a == [] {
      assert a + b == b;
    } else {
      assert (a + b)[1..] == a[1..] + b;
      ExtendAppend(HostPush(h, a[0]), a[1..], b);
    }
  }

  /** Pushing one more component extends the previous host path. */
  lemma ExtendLast(h: string, cs: seq<string>, c: string)
    ensures Extend(h, cs + [c]) == HostPush(Extend(h, cs), c)
  {
    ExtendAppend(h, cs, [c]);
  }

  /** A slice grown by one element at its end. */
  lemma SliceSnoc<T>(s: seq<T>, j: nat, k: nat)
    requires j <= k < |s|
    ensures s[j..k + 1] == s[j..k] + [s[k]]
    ensures s[..k + 1] == s[..k] + [s[k]]
  {
  }

  /** A sequence that agrees with `b` up to `l` is `b[j..l]` followed by its own rest. */
  lemma SliceAcross<T>(a: seq<T>, b: seq<T>, j: nat, l: nat)
    requires j <= l <= |a| && l <= |b| && a[..l] == b[..l]
    ensures a[j..] == b[j..l] + a[l..]
  {
    assert a[j..l] == a[..l][j..];
    assert b[j..l] == b[..l][j..];
  }

  /** Pushing component `k` onto the host path for components `j..k` gives the one for `j..k + 1`. */
  lemma ExtendStep(h: string, cs: seq<string>, j: nat, k: nat, hk: string)
    requires j <= k < |cs| && hk == Extend(h, cs[j..k])
    ensures HostPush(hk, cs[k]) == Extend(h, cs[j..k + 1])
  {
    SliceSnoc(cs, j, k);
    ExtendLast(h, cs[j..k], cs[k]);
  }
}
