/** FlatBuffers strings and the two orders on them: `strcmp` and the length-aware comparison the sort uses.
    A string is its bytes; the terminating NUL behind them is implied. */
module Strings {
  import opened Memory
  import opened Order

  /** The string whose length word is at address `x`; only called for strings inside the buffer. */
  function StringAt(m: seq<byte>, x: nat): bytes {
    if StringInBuffer(m, x) then m[x + 4..x + 4 + ReadU32(m, x)] else []
  }

  predicate StringInBuffer(m: seq<byte>, x: nat) {
    x + 4 <= |m| && x + 4 + ReadU32(m, x) <= |m|
  }

  /** A string stored behind the word of its length is read back. */
  lemma StringWritten(m: seq<byte>, x: nat, s: bytes)
    requires |s| < TWO_TO_THE_32 && x + 4 + |s| <= |m|
    requires m[x..x + 4] == U32Bytes(|s|) && m[x + 4..x + 4 + |s|] == s
    ensures StringInBuffer(m, x) && StringAt(m, x) == s
  {
    WordWritten(m, x, |s|);
  }

  function First(s: bytes): int {
    if s == [] then 0 else s[0]
  }

  /** `strcmp` on NUL-terminated strings. */
  function StrCmp(v: bytes, s: bytes): int {
    if First(v) != First(s) then First(v) - First(s)
    else if First(v) == 0 then 0
    else StrCmp(v[1..], s[1..])
  }

  /** `strncmp` over at most `n` bytes, all of them readable. */
  function StrNCmp(v: bytes, s: bytes, n: nat): int
    requires n <= |v| && n <= |s|
  {
    if n == 0 then 0
    else if v[0] != s[0] then v[0] as int - s[0] as int
    else if v[0] == 0 then 0
    else StrNCmp(v[1..], s[1..], n - 1)
  }

  /** `__flatbuffers_string_n_cmp`: `strncmp` on the common length, then the lengths. */
  function StringNCmp(v: bytes, s: bytes, n: nat): int
    requires n <= |s|
  {
    var x := StrNCmp(v, s, if |v| < n then |v| else n);
    if x != 0 then x else if |v| < n then -1 else if |v| > n then 1 else 0
  }

  /** `__flatbuffers_string_diff`, the order of the sort. */
  function StringDiff(v: bytes, s: bytes): int {
    StringNCmp(v, s, |s|)
  }

  function Sign(x: int): int {
    if x < 0 then -1 else if x > 0 then 1 else 0
  }

  /** The sort order is the `strcmp` order refined by length: an embedded NUL hides everything behind it
      but its length. */
  lemma {:induction false} DiffRefinesStrCmp(v: bytes, s: bytes)
    ensures Sign(StringDiff(v, s)) == if StrCmp(v, s) != 0 then Sign(StrCmp(v, s)) else Sign(|v| - |s|)
  {
    if v != [] && s != [] && v[0] == s[0] != 0 {
      DiffRefinesStrCmp(v[1..], s[1..]);
    }
  }

  lemma {:induction false} StrCmpAntisymmetric(v: bytes, s: bytes)
    ensures StrCmp(v, s) == -StrCmp(s, v)
  {
    if First(v) == First(s) != 0 {
      StrCmpAntisymmetric(v[1..], s[1..]);
    }
  }

  lemma {:induction false} StrCmpTransitive(u: bytes, v: bytes, w: bytes)
    requires StrCmp(u, v) <= 0 && StrCmp(v, w) <= 0
    ensures StrCmp(u, w) <= 0
    ensures StrCmp(u, v) < 0 || StrCmp(v, w) < 0 ==> StrCmp(u, w) < 0
  {
    if First(u) == First(v) == First(w) != 0 {
      StrCmpTransitive(u[1..], v[1..], w[1..]);
    }
  }

  /** The sort order is a total preorder on all byte strings, embedded NULs included. */
  lemma StringDiffIsPreorder()
    ensures TotalPreorder(StringDiff)
  {
    forall u, v
      ensures Le(StringDiff, u, v) || Le(StringDiff, v, u)
    {
      DiffRefinesStrCmp(u, v);
      DiffRefinesStrCmp(v, u);
      StrCmpAntisymmetric(u, v);
    }
    forall u, v, w | Le(StringDiff, u, v) && Le(StringDiff, v, w)
      ensures Le(StringDiff, u, w)
    {
      LeIsStrCmp(u, v);
      LeIsStrCmp(v, w);
      LeIsStrCmp(u, w);
      StrCmpTransitive(u, v, w);
    }
  }

  lemma LeIsStrCmp(u: bytes, v: bytes)
    ensures Le(StringDiff, u, v) <==> StrCmp(u, v) < 0 || (StrCmp(u, v) == 0 && |u| <= |v|)
  {
    DiffRefinesStrCmp(v, u);
    StrCmpAntisymmetric(u, v);
  }

  /** Two strings the sort cannot tell apart have equal length and equal bytes up to the first NUL. */
  lemma {:induction false} StrCmpZero(u: bytes, v: bytes, k: nat)
    requires StrCmp(u, v) == 0 && k <= |u| && 0 !in u[..k]
    ensures k <= |v| && v[..k] == u[..k]
  {
    if k > 0 {
      assert u[0] == u[..k][0];
      assert u[1..][..k - 1] == u[..k][1..];
      StrCmpZero(u[1..], v[1..], k - 1);
      assert u[..k] == [u[0]] + u[1..][..k - 1];
      assert v[..k] == [v[0]] + v[1..][..k - 1];
    }
  }

  // ---------- The first difference ----------

  /** The byte at place `k`, the terminating NUL and whatever is behind it read as 0. */
  function At(s: bytes, k: nat): int {
    if k < |s| then s[k] else 0
  }

  /** The strings first differ at place `k`, and neither has ended before. */
  ghost predicate DifferAt(u: bytes, v: bytes, k: nat) {
    At(u, k) != At(v, k) && forall i :: 0 <= i < k ==> At(u, i) == At(v, i) != 0
  }

  /** `strcmp` orders by the first difference, smaller bytes first. */
  lemma {:induction false} FirstDifferenceDecides(u: bytes, v: bytes, k: nat)
    requires DifferAt(u, v, k)
    ensures Sign(StrCmp(u, v)) == Sign(At(u, k) - At(v, k))
  {
    if k > 0 {
      assert At(u, 0) == At(v, 0) != 0;
      forall i | 0 <= i < k
        ensures At(u[1..], i) == At(u, i + 1) && At(v[1..], i) == At(v, i + 1)
      {
      }
      FirstDifferenceDecides(u[1..], v[1..], k - 1);
    }
  }

  /** Strings that compare unequal differ somewhere before they end. */
  lemma {:induction false} SomeDifference(u: bytes, v: bytes) returns (k: nat)
    requires StrCmp(u, v) != 0
    ensures DifferAt(u, v, k)
  {
    k := 0;
    if First(u) == First(v) {
      k := SomeDifference(u[1..], v[1..]);
      k := k + 1;
      forall i | 0 <= i < k
        ensures At(u, i) == At(v, i) != 0
      {
        if i > 0 { assert At(u[1..], i - 1) == At(v[1..], i - 1) != 0; }
      }
    }
  }

  /** In ascending order: smaller at the first difference, or without one before the first NUL and no longer. */
  ghost predicate NotAfter(u: bytes, v: bytes) {
    && (forall k: nat :: DifferAt(u, v, k) ==> At(u, k) < At(v, k))
    && ((forall k: nat :: !DifferAt(u, v, k)) ==> |u| <= |v|)
  }

  lemma LeIsNotAfter(u: bytes, v: bytes)
    ensures Le(StringDiff, u, v) <==> NotAfter(u, v)
  {
    LeIsStrCmp(u, v);
    hide DifferAt, Le;
    forall k: nat | DifferAt(u, v, k)
      ensures Sign(StrCmp(u, v)) == Sign(At(u, k) - At(v, k)) != 0
    {
      FirstDifferenceDecides(u, v, k);
      DifferMeans(u, v, k);
    }
    if StrCmp(u, v) != 0 {
      var k := SomeDifference(u, v);
    }
  }

  lemma DifferMeans(u: bytes, v: bytes, k: nat)
    requires DifferAt(u, v, k)
    ensures At(u, k) != At(v, k)
  {
  }

  /** `strcmp` finds two strings equal exactly if they have no difference before they end. */
  lemma EqualHasNoDifference(u: bytes, v: bytes)
    ensures StrCmp(u, v) == 0 <==> forall k: nat :: !DifferAt(u, v, k)
  {
    if StrCmp(u, v) != 0 {
      var k := SomeDifference(u, v);
    }
    forall k: nat | DifferAt(u, v, k)
      ensures StrCmp(u, v) != 0
    {
      FirstDifferenceDecides(u, v, k);
    }
  }
}
