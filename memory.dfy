/**
 * Guest memory as the host sees it: a byte buffer, the copy of a byte
 * string into it (`copy_from_slice` on a slice of the mapping) and the
 * NUL-terminated C string that starts at an offset.
 */
module GuestMemory {
  import opened Common

  /** The memory `m` with `bytes` stored from offset `at` on. */
  function Splice(m: seq<u8>, at: nat, bytes: seq<u8>): (r: seq<u8>)
    requires at + |bytes| <= |m|
    ensures |r| == |m|
    ensures r[at..at + |bytes|] == bytes
    ensures forall k :: 0 <= k < |m| && !(at <= k < at + |bytes|) ==> r[k] == m[k]
  {
    m[..at] + bytes + m[at + |bytes|..]
  }

  /** A store of `bytes` at offset `at`. */
  datatype Store = Store(at: nat, bytes: seq<u8>)

  predicate Fits(m: seq<u8>, st: Store) {
    st.at + |st.bytes| <= |m|
  }

  /** The stores performed one after the other; each must fit the memory. */
  function ApplyAll(m: seq<u8>, stores: seq<Store>): (r: seq<u8>)
    requires forall i :: 0 <= i < |stores| ==> Fits(m, stores[i])
    ensures |r| == |m|
    decreases |stores|
  {
    if stores == [] then m
    else
      var last := stores[|stores| - 1];
      assert forall i :: 0 <= i < |stores| - 1 ==> stores[..|stores| - 1][i] == stores[i];
      var before := ApplyAll(m, stores[..|stores| - 1]);
      assert Fits(m, last);
      Splice(before, last.at, last.bytes)
  }

  /** Writing byte `v` right after a store of `a` extends the store by `v`. */
  lemma SpliceThenByte(m: seq<u8>, at: nat, a: seq<u8>, v: u8, cur: seq<u8>)
    requires at + |a| < |m| && cur == Splice(m, at, a)
    ensures at + |a| < |cur| && cur[at + |a| := v] == Splice(m, at, a + [v])
  {
    SpliceOne(cur, at + |a|, v);
    SpliceConcat(m, at, a, [v]);
  }

  /** Storing `b` right after a store of `a` extends the store by `b`. */
  lemma SpliceThenBytes(m: seq<u8>, at: nat, a: seq<u8>, b: seq<u8>, cur: seq<u8>)
    requires at + |a| + |b| <= |m| && cur == Splice(m, at, a)
    ensures at + |a| + |b| <= |cur| && Splice(cur, at + |a|, b) == Splice(m, at, a + b)
  {
    SpliceConcat(m, at, a, b);
  }

  /** Performing store `n` after the first `n` stores performs the first `n + 1`. */
  lemma ApplyAllStep(m: seq<u8>, stores: seq<Store>, n: nat, cur: seq<u8>)
    requires forall i :: 0 <= i < |stores| ==> Fits(m, stores[i])
    requires n < |stores| && cur == ApplyAll(m, stores[..n])
    ensures stores[n].at + |stores[n].bytes| <= |cur|
    ensures Splice(cur, stores[n].at, stores[n].bytes) == ApplyAll(m, stores[..n + 1])
  {
    assert Fits(m, stores[n]);
    assert stores[..n + 1][..n] == stores[..n];
    assert stores[..n + 1][n] == stores[n];
  }

  /** The two stores touch no common byte. */
  predicate Disjoint(a: Store, b: Store) {
    a.at + |a.bytes| <= b.at || b.at + |b.bytes| <= a.at
  }

  /**
   * After stores into pairwise disjoint regions, each region holds exactly
   * the bytes of its store: no store overwrites another.
   */
  lemma {:induction false} ApplyAllDisjoint(m: seq<u8>, stores: seq<Store>, i: nat)
    requires forall k :: 0 <= k < |stores| ==> Fits(m, stores[k])
    requires PairwiseDisjoint(stores)
    requires i < |stores|
    ensures ApplyAll(m, stores)[stores[i].at..stores[i].at + |stores[i].bytes|] == stores[i].bytes
    decreases |stores|
  {
    var n := |stores|;
    var init := stores[..n - 1];
    var before := ApplyAll(m, init);
    var after := ApplyAll(m, stores);
    if i < n - 1 {
      assert init[i] == stores[i];
      ApplyAllDisjoint(m, init, i);
      var st := stores[i];
      assert Disjoint(st, stores[n - 1]);
      forall k | st.at <= k < st.at + |st.bytes|
        ensures after[k] == st.bytes[k - st.at]
      {
        assert before[k] == before[st.at..st.at + |st.bytes|][k - st.at];
      }
    }
  }

  /** Memory outside every store keeps its old contents. */
  lemma {:induction false} ApplyAllOutside(m: seq<u8>, stores: seq<Store>, k: nat)
    requires forall i :: 0 <= i < |stores| ==> Fits(m, stores[i])
    requires k < |m|
    requires forall i :: 0 <= i < |stores| ==> !(stores[i].at <= k < stores[i].at + |stores[i].bytes|)
    ensures ApplyAll(m, stores)[k] == m[k]
    decreases |stores|
  {
    if stores != [] {
      ApplyAllOutside(m, stores[..|stores| - 1], k);
    }
  }

  /** Whether a 0 byte follows offset `at`, so that a C string starts there. */
  predicate Terminated(m: seq<u8>, at: nat) {
    at <= |m| && 0 in m[at..]
  }

  /** The bytes of the C string at offset `at`, without its terminating 0. */
  function CStr(m: seq<u8>, at: nat): (s: seq<u8>)
    requires Terminated(m, at)
    ensures at + |s| < |m| && m[at + |s|] == 0
    ensures s == m[at..at + |s|]
    ensures forall k :: 0 <= k < |s| ==> s[k] != 0
    decreases |m| - at
  {
    if m[at] == 0 then []
    else
      assert m[at + 1..] == m[at..][1..];
      [m[at]] + CStr(m, at + 1)
  }

  /** The C string at the start of a store of `bytes` followed by 0 is `bytes`, when `bytes` has no 0. */
  lemma CStrOfStore(m: seq<u8>, at: nat, bytes: seq<u8>)
    requires at + |bytes| < |m| && m[at + |bytes|] == 0
    requires m[at..at + |bytes|] == bytes
    requires forall k :: 0 <= k < |bytes| ==> bytes[k] != 0
    ensures Terminated(m, at) && CStr(m, at) == bytes
  {
    assert m[at..][|bytes|] == 0;
  }

  /** A region holding `bytes` and then 0 starts a C string that reads back as `bytes`. */
  lemma CStrOfTerminated(m: seq<u8>, at: nat, bytes: seq<u8>)
    requires at + |bytes| + 1 <= |m| && m[at..at + |bytes| + 1] == bytes + [0]
    requires 0 !in bytes
    ensures Terminated(m, at) && CStr(m, at) == bytes
  {
    assert m[at..at + |bytes|] == m[at..at + |bytes| + 1][..|bytes|];
    assert m[at + |bytes|] == m[at..at + |bytes| + 1][|bytes|];
    CStrOfStore(m, at, bytes);
  }

  /** Storing `a` and then `b` right after it is storing `a + b`. */
  lemma SpliceConcat(m: seq<u8>, at: nat, a: seq<u8>, b: seq<u8>)
    requires at + |a| + |b| <= |m|
    ensures Splice(Splice(m, at, a), at + |a|, b) == Splice(m, at, a + b)
  {
    var l := Splice(Splice(m, at, a), at + |a|, b);
    var r := Splice(m, at, a + b);
    forall k | 0 <= k < |m|
      ensures l[k] == r[k]
    {
      if at <= k < at + |a| {
        assert l[k] == Splice(m, at, a)[at..at + |a|][k - at];
        assert r[k] == r[at..at + |a| + |b|][k - at];
      } else if at + |a| <= k < at + |a| + |b| {
        assert l[k] == l[at + |a|..at + |a| + |b|][k - at - |a|];
        assert r[k] == r[at..at + |a| + |b|][k - at];
      }
    }
  }

  /** Writing one byte is storing a one-byte string. */
  lemma SpliceOne(m: seq<u8>, at: nat, v: u8)
    requires at < |m|
    ensures m[at := v] == Splice(m, at, [v])
  {
    assert Splice(m, at, [v])[at] == Splice(m, at, [v])[at..at + 1][0];
  }

  /** The regions of the stores are pairwise disjoint. */
  predicate PairwiseDisjoint(stores: seq<Store>) {
    forall k, l :: 0 <= k < l < |stores| ==> Disjoint(stores[k], stores[l])
  }

  /**
   * After stores into pairwise disjoint regions, the C string at a store of
   * `bytes` followed by 0 reads back as `bytes`, when `bytes` has no 0.
   */
  lemma ReadBackStore(m: seq<u8>, stores: seq<Store>, i: nat, bytes: seq<u8>)
    requires forall k :: 0 <= k < |stores| ==> Fits(m, stores[k])
    requires PairwiseDisjoint(stores)
    requires i < |stores| && stores[i].bytes == bytes + [0]
    requires 0 !in bytes
    ensures Terminated(ApplyAll(m, stores), stores[i].at)
    ensures CStr(ApplyAll(m, stores), stores[i].at) == bytes
  {
    ApplyAllDisjoint(m, stores, i);
    CStrOfTerminated(ApplyAll(m, stores), stores[i].at, bytes);
  }

  /** `copy_from_slice`: the bytes are stored at `at`, nothing else changes. */
  method CopyFromSlice(mem: array<u8>, at: nat, bytes: seq<u8>)
    requires at + |bytes| <= mem.Length
    modifies mem
    ensures mem[..] == Splice(old(mem[..]), at, bytes)
  {
    forall k | at <= k < at + |bytes| {
      mem[k] := bytes[k - at];
    }
    assert mem[..] == Splice(old(mem[..]), at, bytes) by {
      var r := Splice(old(mem[..]), at, bytes);
      forall k | 0 <= k < mem.Length
        ensures mem[k] == r[k]
      {
        if at <= k < at + |bytes| {
          assert r[k] == r[at..at + |bytes|][k - at];
        }
      }
    }
  }
}
