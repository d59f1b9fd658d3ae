/** NUL-terminated strings in fixed buffers, and bounded concatenation. */
module CStrings {
  import opened Memory

  const NUL := '\0'

  /** The string in a buffer: the characters before the first NUL, or all of them if there is none. */
  function Text(s: string): string {
    if s == [] || s[0] == NUL then [] else [s[0]] + Text(s[1..])
  }

  /** The first `n` characters, or all. */
  function Take(s: string, n: nat): (r: string)
    ensures r <= s && |r| == if |s| <= n then |s| else n
  {
    if |s| <= n then s else s[..n]
  }

  lemma {:induction false} TextIsBeforeNul(s: string, n: nat)
    requires n < |s| && s[n] == NUL && forall i :: 0 <= i < n ==> s[i] != NUL
    ensures Text(s) == s[..n]
  {
    if n > 0 { TextIsBeforeNul(s[1..], n - 1); }
  }

  lemma {:induction false} TextIsPrefix(s: string)
    ensures |Text(s)| <= |s| && Text(s) == s[..|Text(s)|]
    ensures forall c :: c in Text(s) ==> c != NUL
    ensures |Text(s)| < |s| ==> s[|Text(s)|] == NUL
  {
    if s != [] && s[0] != NUL { TextIsPrefix(s[1..]); }
  }

  method Memcpy(dst: array<char>, at: nat, s: string)
    requires at + |s| <= dst.Length
    modifies dst
    ensures dst[..] == old(dst[..at]) + s + old(dst[at + |s|..])
  {
    forall i | 0 <= i < |s| {
      dst[at + i] := s[i];
    }
  }

  /** Stores a string and its terminating NUL. */
  method Terminated(dst: array<char>, at: nat, s: string)
    requires at + |s| < dst.Length
    modifies dst
    ensures dst[..at + |s|] == old(dst[..at]) + s && dst[at + |s|] == NUL
    ensures dst[at + |s| + 1..] == old(dst[at + |s| + 1..])
  {
    Memcpy(dst, at, s);
    dst[at + |s|] := NUL;
  }

  /** The cups `strlcat`: appends what fits into `size`, and returns the new length. The destination holds a
      terminated string shorter than `size`; the source is the string `src`. */
  method Strlcat(dst: array<char>, src: string, size: nat) returns (r: nat)
    requires size <= dst.Length && size < TWO_TO_THE_64 && |Text(dst[..])| < size
    requires NUL !in src
    modifies dst
    ensures Text(dst[..]) == Take(old(Text(dst[..])) + src, size - 1)
    ensures r == |Text(dst[..])| < size
    ensures dst[r + 1..] == old(dst[..])[r + 1..]
  {
    ghost var before := dst[..];
    TextIsPrefix(before);
    hide Text, Take;
    var dstlen := |Text(dst[..])|;
    CutToRoom(Text(before), src, size);
    var room := (size - (dstlen + 1)) % TWO_TO_THE_64;
    Unwrapped(size - (dstlen + 1));
    if room == 0 { return dstlen; }
    var srclen := |src|;
    if srclen > room { srclen := room; }
    Terminated(dst, dstlen, src[..srclen]);
    r := dstlen + srclen;
    TextOfAppended(before, dst[..], src[..srclen]);
  }

  /** Cutting the concatenation is appending what there is room for. */
  lemma CutToRoom(text: string, src: string, size: nat)
    requires |text| < size
    ensures var room := size - |text| - 1;
      Take(text + src, size - 1) == text + src[..if |src| > room then room else |src|]
  {
  }

  lemma TextOfAppended(s: string, s': string, piece: string)
    requires NUL !in piece && |s'| == |s| && |Text(s)| + |piece| < |s|
    requires s'[..|Text(s)| + |piece|] == s[..|Text(s)|] + piece && s'[|Text(s)| + |piece|] == NUL
    ensures Text(s') == Text(s) + piece
  {
    TextIsPrefix(s);
    hide Text;
    var r := |Text(s)| + |piece|;
    forall i | 0 <= i < r
      ensures s'[i] != NUL
    {
      assert s'[i] == s'[..r][i] == (Text(s) + piece)[i];
      if i < |Text(s)| {
        assert Text(s)[i] in Text(s);
      } else {
        assert piece[i - |Text(s)|] in piece;
      }
    }
    TextIsBeforeNul(s', r);
  }

  /** The buffer holds `all`, cut to what `size` leaves room for. */
  ghost predicate Holds(buf: string, size: nat, all: string) {
    0 < size <= |buf| && Text(buf) == Take(all, size - 1)
  }

  /** Appending to a buffer that was cut already, and cutting, is cutting once. */
  lemma CutOnce(all: string, piece: string, n: nat)
    ensures Take(Take(all, n) + piece, n) == Take(all + piece, n)
  {
  }

  /** One link of a chain of `strlcat` calls. */
  method Append(buf: array<char>, piece: string, size: nat, ghost all: string)
    requires Holds(buf[..], size, all) && size < TWO_TO_THE_64 && NUL !in piece
    modifies buf
    ensures Holds(buf[..], size, all + piece)
  {
    CutOnce(all, piece, size - 1);
    var r := Strlcat(buf, piece, size);
  }

  /** `strncpy` of a short string into a whole buffer: the rest is filled with NULs. */
  method Strncpy(buf: array<char>, s: string, size: nat)
    requires size <= buf.Length && |s| < size && NUL !in s
    modifies buf
    ensures Text(buf[..]) == s && Holds(buf[..], size, s)
  {
    forall i | 0 <= i < size {
      buf[i] := if i < |s| then s[i] else NUL;
    }
    assert buf[..|s|] == s;
    TextIsBeforeNul(buf[..], |s|);
    assert buf[..][..|s|] == s;
  }

  function Joined(pieces: seq<string>): string {
    if pieces == [] then [] else Joined(pieces[..|pieces| - 1]) + pieces[|pieces| - 1]
  }

  /** Any chain of `strlcat` calls leaves the initial string and all pieces, cut once to `size - 1`. */
  method Chain(buf: array<char>, pieces: seq<string>, size: nat) returns (r: nat)
    requires size <= buf.Length && size < TWO_TO_THE_64 && |Text(buf[..])| < size
    requires forall p :: p in pieces ==> NUL !in p
    modifies buf
    ensures Text(buf[..]) == Take(old(Text(buf[..])) + Joined(pieces), size - 1)
    ensures r == |Text(buf[..])| < size
  {
    hide Text, Take, Joined;
    ghost var initial := Text(buf[..]);
    JoinedNothing(initial, pieces, size, buf[..]);
    r := |Text(buf[..])|;
    for i := 0 to |pieces|
      invariant Holds(buf[..], size, initial + Joined(pieces[..i]))
      invariant r == |Text(buf[..])| < size
    {
      CutOnce(initial + Joined(pieces[..i]), pieces[i], size - 1);
      JoinedStep(initial, pieces, i);
      r := Strlcat(buf, pieces[i], size);
    }
    assert pieces[..|pieces|] == pieces;
  }

  lemma JoinedNothing(initial: string, pieces: seq<string>, size: nat, buf: string)
    requires initial == Text(buf) && |initial| < size <= |buf|
    ensures Holds(buf, size, initial + Joined(pieces[..0]))
  {
    assert initial + [] == initial;
  }

  lemma JoinedStep(initial: string, pieces: seq<string>, i: nat)
    requires i < |pieces|
    ensures initial + Joined(pieces[..i + 1]) == (initial + Joined(pieces[..i])) + pieces[i]
  {
    assert pieces[..i + 1][..i] == pieces[..i];
  }
}
