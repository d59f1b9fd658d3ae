/** The Base64 codec: the encoding of section 4 of RFC 4648, and a decoder that skips foreign characters. */
module Base64 {
  import opened Wrappers
  import opened Memory
  import opened Bits

  const PAD: octet := 61
  const INVALID: octet := 0x80

  /** `base64_table`: A-Z, a-z, 0-9, +, /. */
  function Symbol(i: octet): octet
    requires i < 64
  {
    if i < 26 then 65 + i else if i < 52 then 71 + i else if i < 62 then i - 4 else if i == 62 then 43 else 47
  }

  /** What `dtable` holds: the value of a symbol, 0 for the pad, and 0x80 for every other character. */
  function Value(c: octet): octet {
    if 65 <= c <= 90 then c - 65
    else if 97 <= c <= 122 then c - 71
    else if 48 <= c <= 57 then c + 4
    else if c == 43 then 62
    else if c == 47 then 63
    else if c == PAD then 0
    else INVALID
  }

  lemma ValueOfSymbol(i: octet)
    requires i < 64
    ensures Value(Symbol(i)) == i && Symbol(i) != PAD
  {
  }

  lemma SymbolOfValue(c: octet)
    requires Value(c) != INVALID && c != PAD
    ensures Value(c) < 64 && Symbol(Value(c)) == c
  {
  }

  // ---------- Encoding ----------

  /** The 24-bit group of three octets. */
  function Group(a: octet, b: octet, c: octet): bv24 {
    (a as bv24 << 16) | (b as bv24 << 8) | (c as bv24)
  }

  /** The four symbols of a 24-bit group, six bits each, high bits first. */
  function Symbols(g: bv24): (s: seq<octet>)
    ensures |s| == 4
  {
    [Symbol((g >> 18) as octet), Symbol(((g >> 12) & 63) as octet),
     Symbol(((g >> 6) & 63) as octet), Symbol((g & 63) as octet)]
  }

  /** The encoding: groups of three octets, the last one completed with zero bits and pads. */
  function Encode(s: seq<octet>): seq<octet> {
    if |s| == 0 then []
    else if |s| == 1 then Symbols(Group(s[0], 0, 0))[..2] + [PAD, PAD]
    else if |s| == 2 then Symbols(Group(s[0], s[1], 0))[..3] + [PAD]
    else Symbols(Group(s[0], s[1], s[2])) + Encode(s[3..])
  }

  lemma SextetsOfGroup(a: octet, b: octet, c: octet)
    ensures var g := Group(a, b, c);
      && (g >> 18) as octet == a >> 2
      && ((g >> 12) & 63) as octet == ((a & 3) << 4) | (b >> 4)
      && ((g >> 6) & 63) as octet == ((b & 15) << 2) | (c >> 6)
      && (g & 63) as octet == c & 63
  {
  }

  // The four table indices the C code computes from the octets in[0], in[1], in[2].

  function Index0(a: octet): (i: octet)
    ensures i < 64
  {
    a >> 2
  }

  function Index1(a: octet, b: octet): (i: octet)
    ensures i < 64
  {
    ((a & 3) << 4) | (b >> 4)
  }

  function Index2(b: octet, c: octet): (i: octet)
    ensures i < 64
  {
    ((b & 15) << 2) | (c >> 6)
  }

  function Index3(c: octet): (i: octet)
    ensures i < 64
  {
    c & 63
  }

  /** The shifts and masks of the C code cut the group into its sextets. */
  lemma IndicesMakeSymbols(a: octet, b: octet, c: octet)
    ensures Symbols(Group(a, b, c))
         == [Symbol(Index0(a)), Symbol(Index1(a, b)), Symbol(Index2(b, c)), Symbol(Index3(c))]
  {
    hide Group, Symbol;
    SextetsOfGroup(a, b, c);
  }

  /** The encoder's buffer size, in 64-bit arithmetic: room for 3-byte blocks, line feeds and a NUL. */
  function BufferSize(len: nat): (olen: nat)
    ensures olen < TWO_TO_THE_64
  {
    var n := ((len * 4 % TWO_TO_THE_64) / 3 + 4) % TWO_TO_THE_64;
    var n' := (n + n / 72) % TWO_TO_THE_64;
    (n' + 1) % TWO_TO_THE_64
  }

  /** The overflow check is exact: the size comes out below `len` precisely when `4 * len` wraps around,
      and otherwise it has room for the whole encoding and its NUL. */
  lemma GuardIsExact(len: nat)
    requires len < TWO_TO_THE_64
    ensures BufferSize(len) < len <==> TWO_TO_THE_64 <= 4 * len
    ensures 4 * len < TWO_TO_THE_64 ==> 4 * ((len + 2) / 3) + 1 <= BufferSize(len)
  {
    var w := len * 4 % TWO_TO_THE_64;
    var k := len * 4 / TWO_TO_THE_64;
    var n := w / 3 + 4;
    GuardArithmetic(len, k, w, w / 3, n / 72, (len + 2) / 3);
    Unwrapped(n);
    Unwrapped(n + n / 72);
    Unwrapped(n + n / 72 + 1);
  }

  /** With `k` wraps of `4 * len`, the size without overflow of the later sums. */
  lemma GuardArithmetic(len: nat, k: int, w: nat, q: nat, r: nat, groups: nat)
    requires len < TWO_TO_THE_64 && w == 4 * len - k * TWO_TO_THE_64 < TWO_TO_THE_64
    requires 3 * q <= w < 3 * q + 3 && 72 * r <= q + 4 < 72 * r + 72 && 3 * groups <= len + 2
    ensures q + 4 + r + 1 < TWO_TO_THE_64
    ensures q + 4 + r + 1 < len <==> k != 0
    ensures k == 0 ==> 4 * groups + 1 <= q + 4 + r + 1
  {
    assert 0 <= k <= 3;
  }

  lemma {:induction false} EncodeLength(s: seq<octet>)
    ensures |Encode(s)| == 4 * ((|s| + 2) / 3)
  {
    if |s| > 2 { EncodeLength(s[3..]); }
  }

  /** The last group is completed with zero bits: the C code leaves out the shift of the missing octet. */
  lemma ZeroPadding(a: octet)
    ensures Index1(a, 0) == (a & 3) << 4 && Index2(a, 0) == (a & 15) << 2
  {
  }

  lemma EncodeOne(a: octet)
    ensures Encode([a]) == [Symbol(Index0(a)), Symbol(Index1(a, 0)), PAD, PAD]
  {
    hide Group, Symbol, Symbols;
    IndicesMakeSymbols(a, 0, 0);
  }

  lemma EncodeTwo(a: octet, b: octet)
    ensures Encode([a, b]) == [Symbol(Index0(a)), Symbol(Index1(a, b)), Symbol(Index2(b, 0)), PAD]
  {
    hide Group, Symbol, Symbols;
    IndicesMakeSymbols(a, b, 0);
  }

  lemma EncodeStep(src: seq<octet>, i: nat)
    requires i + 3 <= |src|
    ensures var a, b, c := src[i], src[i + 1], src[i + 2];
      Encode(src[i..]) ==
        [Symbol(Index0(a)), Symbol(Index1(a, b)), Symbol(Index2(b, c)), Symbol(Index3(c))] + Encode(src[i + 3..])
  {
    hide Group, Symbol, Symbols;
    IndicesMakeSymbols(src[i], src[i + 1], src[i + 2]);
    assert src[i..][3..] == src[i + 3..];
  }

  // ---------- The encoding, character by character ----------

  /** The alphabet of table 1 of RFC 4648. */
  const ALPHABET := "ABCDEFGHIJKLMNOPQRSTUVWXYZ" + "abcdefghijklmnopqrstuvwxyz" + "0123456789" + "+/"

  lemma AlphabetCodes(k: nat)
    requires k < 64
    ensures |ALPHABET| == 64
    ensures ALPHABET[k] as int ==
      if k < 26 then 65 + k else if k < 52 then 71 + k else if k < 62 then k - 4 else if k == 62 then 43 else 47
  {
    if k < 26 {
      assert ALPHABET[k] == "ABCDEFGHIJKLMNOPQRSTUVWXYZ"[k];
    } else if k < 52 {
      assert ALPHABET[k] == "abcdefghijklmnopqrstuvwxyz"[k - 26];
    }
  }

  lemma SymbolCodes(i: octet)
    requires i < 64
    ensures var k := i as int;
      Symbol(i) as int ==
        if k < 26 then 65 + k else if k < 52 then 71 + k else if k < 62 then k - 4 else if k == 62 then 43 else 47
  {
  }

  /** The `i`-th symbol is the `i`-th character of the alphabet, and the pad is the equals sign. */
  lemma SymbolIsInAlphabet(i: octet)
    requires i < 64
    ensures |ALPHABET| == 64 && 0 <= i as int < 64 && Symbol(i) as int == ALPHABET[i as int] as int
    ensures PAD as int == '=' as int
  {
    SymbolCodes(i);
    BelowSixtyFour(i);
    AlphabetCodes(i as int);
  }

  /** A character of the source, 0 behind its end. */
  function OctetAt(src: seq<octet>, p: nat): int {
    if p < |src| then src[p] as int else 0
  }

  function AlphabetAt(k: int): char {
    if 0 <= k < |ALPHABET| then ALPHABET[k] else '='
  }

  /** The character at place `i` of the encoding: quad `i / 4` is made of the octets from `3 * (i / 4)` on, and has an
      equals sign for each sextet that no octet of the source is part of. */
  function CharacterAt(src: seq<octet>, i: nat): char {
    var k, j := i / 4, i % 4;
    if 3 * k + j > |src| then '='
    else AlphabetAt(SextetOf(OctetAt(src, 3 * k), OctetAt(src, 3 * k + 1), OctetAt(src, 3 * k + 2), j))
  }

  ghost predicate IsBase64Of(t: seq<octet>, src: seq<octet>) {
    |t| == 4 * ((|src| + 2) / 3) && forall i :: 0 <= i < |t| ==> t[i] as int == CharacterAt(src, i) as int
  }

  // The indices of the C code, as numbers.

  lemma Index0Number(a: octet)
    ensures Index0(a) as int == a as int / 4
  {
  }

  lemma Index1Number(a: octet, b: octet)
    ensures Index1(a, b) as int == a as int % 4 * 16 + b as int / 16
  {
    LowestTwo(a);
    HighestFour(b);
    DisjointNibbles((a & 3) << 4, b >> 4);
  }

  lemma Index2Number(b: octet, c: octet)
    ensures Index2(b, c) as int == b as int % 16 * 4 + c as int / 64
  {
    HighPart(b);
    LowPart(c);
    DisjointPairs((b & 15) << 2, c >> 6);
  }

  lemma Index3Number(c: octet)
    ensures Index3(c) as int == c as int % 64
  {
  }

  lemma SymbolAt(i: octet, k: int)
    requires i < 64 && i as int == k
    ensures Symbol(i) as int == AlphabetAt(k) as int
  {
    SymbolIsInAlphabet(i);
  }

  /** The four symbols of a group are the alphabet's characters at its sextets. */
  lemma QuadCharacters(a: octet, b: octet, c: octet)
    ensures Symbol(Index0(a)) as int == AlphabetAt(SextetOf(a as int, b as int, c as int, 0)) as int
    ensures Symbol(Index1(a, b)) as int == AlphabetAt(SextetOf(a as int, b as int, c as int, 1)) as int
    ensures Symbol(Index2(b, c)) as int == AlphabetAt(SextetOf(a as int, b as int, c as int, 2)) as int
    ensures Symbol(Index3(c)) as int == AlphabetAt(SextetOf(a as int, b as int, c as int, 3)) as int
  {
    hide Symbol, Index0, Index1, Index2, Index3, SextetOf, AlphabetAt;
    IsByte(a);
    IsByte(b);
    IsByte(c);
    Sextets(a as int, b as int, c as int);
    Index0Number(a);
    SymbolAt(Index0(a), a as int / 4);
    Index1Number(a, b);
    SymbolAt(Index1(a, b), a as int % 4 * 16 + b as int / 16);
    Index2Number(b, c);
    SymbolAt(Index2(b, c), b as int % 16 * 4 + c as int / 64);
    Index3Number(c);
    SymbolAt(Index3(c), c as int % 64);
  }

  lemma LaterCharacters(src: seq<octet>, i: nat)
    requires |src| > 2 && i >= 4
    ensures CharacterAt(src, i) == CharacterAt(src[3..], i - 4)
  {
    hide SextetOf, AlphabetAt;
    assert i / 4 == (i - 4) / 4 + 1 && i % 4 == (i - 4) % 4;
  }

  lemma OneIsBase64(a: octet)
    ensures IsBase64Of(Encode([a]), [a])
  {
    hide Group, Encode, Symbol, Symbols, Index0, Index1, Index2, Index3, SextetOf, AlphabetAt;
    EncodeOne(a);
    QuadCharacters(a, 0, 0);
    PadIsEquals();
    forall i | 0 <= i < 4
      ensures Encode([a])[i] as int == CharacterAt([a], i) as int
    {
      assert i / 4 == 0 && i % 4 == i;
    }
  }

  lemma TwoIsBase64(a: octet, b: octet)
    ensures IsBase64Of(Encode([a, b]), [a, b])
  {
    hide Group, Encode, Symbol, Symbols, Index0, Index1, Index2, Index3, SextetOf, AlphabetAt;
    EncodeTwo(a, b);
    QuadCharacters(a, b, 0);
    PadIsEquals();
    forall i | 0 <= i < 4
      ensures Encode([a, b])[i] as int == CharacterAt([a, b], i) as int
    {
      assert i / 4 == 0 && i % 4 == i;
    }
  }

  lemma FirstCharacters(src: seq<octet>, i: nat)
    requires |src| > 2 && i < 4
    ensures |Encode(src)| >= 4 && Encode(src)[i] as int == CharacterAt(src, i) as int
  {
    hide Group, Encode, Symbol, Symbols, Index0, Index1, Index2, Index3, SextetOf, AlphabetAt;
    assert src[0..] == src;
    EncodeStep(src, 0);
    QuadCharacters(src[0], src[1], src[2]);
    assert i / 4 == 0 && i % 4 == i;
  }

  lemma NextCharacters(src: seq<octet>)
    requires |src| > 2
    ensures |Encode(src)| >= 4 && Encode(src)[4..] == Encode(src[3..])
  {
    hide Symbols;
  }

  lemma MoreIsBase64(src: seq<octet>)
    requires |src| > 2 && IsBase64Of(Encode(src[3..]), src[3..])
    ensures IsBase64Of(Encode(src), src)
  {
    hide Encode, CharacterAt;
    EncodeLength(src);
    NextCharacters(src);
    forall i | 0 <= i < |Encode(src)|
      ensures Encode(src)[i] as int == CharacterAt(src, i) as int
    {
      if i >= 4 {
        LaterCharacters(src, i);
        assert Encode(src)[i] == Encode(src)[4..][i - 4];
      } else {
        FirstCharacters(src, i);
      }
    }
  }

  /** Every character of an encoding is the one section 4 of RFC 4648 puts there. */
  lemma {:induction false} EncodeIsBase64(src: seq<octet>)
    ensures IsBase64Of(Encode(src), src)
  {
    if |src| == 1 {
      assert src == [src[0]];
      OneIsBase64(src[0]);
    } else if |src| == 2 {
      assert src == [src[0], src[1]];
      TwoIsBase64(src[0], src[1]);
    } else if |src| > 2 {
      EncodeIsBase64(src[3..]);
      MoreIsBase64(src);
    }
  }

  lemma PadIsEquals()
    ensures PAD as int == '=' as int
  {
  }

  /** Stores four octets. */
  method Put(buf: array<octet>, pos: nat, a: octet, b: octet, c: octet, d: octet)
    requires pos + 4 <= buf.Length
    modifies buf
    ensures buf[..pos + 4] == old(buf[..pos]) + [a, b, c, d]
  {
    buf[pos], buf[pos + 1], buf[pos + 2], buf[pos + 3] := a, b, c, d;
  }

  /** The body of the encoder: what it writes ahead of the NUL. */
  method EncodeInto(buf: array<octet>, src: seq<octet>) returns (pos: nat)
    requires |Encode(src)| <= buf.Length
    modifies buf
    ensures pos == |Encode(src)| && buf[..pos] == Encode(src)
  {
    hide Encode, Symbol, Index0, Index1, Index2, Index3;
    var i := 0;
    pos := 0;
    assert src[0..] == src;
    while |src| - i >= 3
      invariant 0 <= i <= |src|
      invariant pos <= buf.Length && buf[..pos] + Encode(src[i..]) == Encode(src)
    {
      var a, b, c := src[i], src[i + 1], src[i + 2];
      EncodeStep(src, i);
      Put(buf, pos, Symbol(Index0(a)), Symbol(Index1(a, b)), Symbol(Index2(b, c)), Symbol(Index3(c)));
      i, pos := i + 3, pos + 4;
    }
    if |src| - i != 0 {
      var a := src[i];
      if |src| - i == 1 {
        assert src[i..] == [a];
        EncodeOne(a);
        ZeroPadding(a);
        Put(buf, pos, Symbol(Index0(a)), Symbol((a & 3) << 4), PAD, PAD);
      } else {
        var b := src[i + 1];
        assert src[i..] == [a, b];
        EncodeTwo(a, b);
        ZeroPadding(b);
        Put(buf, pos, Symbol(Index0(a)), Symbol(Index1(a, b)), Symbol((b & 15) << 2), PAD);
      }
      pos := pos + 4;
    } else {
      EncodeLength(src[i..]);
    }
  }

  /** `b64_encode`: null on size overflow, else a NUL-terminated encoding of the source. */
  method B64Encode(src: seq<octet>) returns (out: array?<octet>, outLen: nat)
    requires |src| < TWO_TO_THE_64
    ensures out == null <==> TWO_TO_THE_64 <= 4 * |src|
    ensures out != null ==> fresh(out) && outLen < out.Length && out[..outLen] == Encode(src) && out[outLen] == 0
    ensures out != null ==> IsBase64Of(out[..outLen], src)
  {
    hide BufferSize, Encode, IsBase64Of;
    EncodeIsBase64(src);
    var olen := BufferSize(|src|);
    GuardIsExact(|src|);
    if olen < |src| { return null, 0; }
    EncodeLength(src);
    out := new octet[olen];
    outLen := EncodeInto(out, src);
    out[outLen] := 0;
  }

  // ---------- Decoding ----------

  /** The characters the decoder looks at: symbols and pads. */
  function Significant(s: seq<octet>): seq<octet> {
    if s == [] then []
    else if Value(s[0]) == INVALID then Significant(s[1..])
    else [s[0]] + Significant(s[1..])
  }

  function Pads(s: seq<octet>): nat {
    if s == [] then 0 else (if s[0] == PAD then 1 else 0) + Pads(s[1..])
  }

  /** The three octets of four six-bit values, by way of their 24-bit group. */
  function Octets(v: octet, w: octet, x: octet, y: octet): (s: seq<octet>)
    requires v < 64 && w < 64 && x < 64 && y < 64
    ensures |s| == 3
  {
    var g := (v as bv24 << 18) | (w as bv24 << 12) | (x as bv24 << 6) | (y as bv24);
    [(g >> 16) as octet, ((g >> 8) & 0xFF) as octet, (g & 0xFF) as octet]
  }

  lemma ValueIsSextet(c: octet)
    ensures Value(c) == INVALID || Value(c) < 64
  {
  }

  /** The octets of a quad of significant characters, before those the pads take away are dropped. */
  function QuadOctets(q: seq<octet>): (s: seq<octet>)
    requires |q| == 4 && AllSignificant(q)
    ensures |s| == 3
  {
    ValueIsSextet(q[0]);
    ValueIsSextet(q[1]);
    ValueIsSextet(q[2]);
    ValueIsSextet(q[3]);
    Octets(Value(q[0]), Value(q[1]), Value(q[2]), Value(q[3]))
  }

  predicate AllSignificant(s: seq<octet>) {
    forall c :: c in s ==> Value(c) != INVALID
  }

  /** Quad by quad: three octets each; the first quad with pads ends the data, and may have at most two. */
  function DecodeQuads(q: seq<octet>): Option<seq<octet>>
    requires AllSignificant(q)
  {
    if |q| < 4 then Some([])
    else
      var pads := Pads(q[..4]);
      if pads == 0 then Prepended(QuadOctets(q[..4]), DecodeQuads(q[4..]))
      else if pads <= 2 then Some(QuadOctets(q[..4])[..3 - pads])
      else None
  }

  function Prepended(s: seq<octet>, d: Option<seq<octet>>): Option<seq<octet>> {
    if d.Some? then Some(s + d.value) else None
  }

  lemma {:induction false} SignificantIsSignificant(s: seq<octet>)
    ensures AllSignificant(Significant(s)) && |Significant(s)| <= |s|
  {
    if s != [] { SignificantIsSignificant(s[1..]); }
  }

  /** The decoder: at least one quad of significant characters, and no incomplete quad. */
  function Decode(s: seq<octet>): Option<seq<octet>> {
    SignificantIsSignificant(s);
    var q := Significant(s);
    if |q| == 0 || |q| % 4 != 0 then None else DecodeQuads(q)
  }

  /** The three octets the C code computes from a block. */
  function Shifted(v: octet, w: octet, x: octet, y: octet): (s: seq<octet>)
    ensures |s| == 3
  {
    [(v << 2) | (w >> 4), (w << 4) | (x >> 2), (x << 6) | y]
  }

  /** Those are the octets of the block's 24-bit group. */
  lemma ShiftsMakeOctets(v: octet, w: octet, x: octet, y: octet)
    requires v < 64 && w < 64 && x < 64 && y < 64
    ensures Octets(v, w, x, y) == Shifted(v, w, x, y)
  {
  }

  lemma {:induction false} SignificantConcat(s: seq<octet>, t: seq<octet>)
    ensures Significant(s + t) == Significant(s) + Significant(t)
  {
    if s == [] {
      assert s + t == t && [] + Significant(t) == Significant(t);
    } else {
      hide Significant, Value;
      SignificantConcat(s[1..], t);
      assert (s + t)[1..] == s[1..] + t;
      FirstOfSignificant(s);
      FirstOfSignificant(s + t);
      Associates(if Value(s[0]) == INVALID then [] else [s[0]], Significant(s[1..]), Significant(t));
    }
  }

  lemma Associates(s: seq<octet>, t: seq<octet>, u: seq<octet>)
    ensures (s + t) + u == s + (t + u)
  {
  }

  lemma FirstOfSignificant(s: seq<octet>)
    requires s != []
    ensures Significant(s) == (if Value(s[0]) == INVALID then [] else [s[0]]) + Significant(s[1..])
  {
    assert [] + Significant(s[1..]) == Significant(s[1..]);
  }

  lemma {:induction false} SignificantFixed(s: seq<octet>)
    requires AllSignificant(s)
    ensures Significant(s) == s
  {
    if s != [] {
      assert s[0] in s && forall c :: c in s[1..] ==> c in s;
      SignificantFixed(s[1..]);
    }
  }

  /** The decoder's result depends on the symbols and pads only. */
  lemma DecodeIgnoresNoise(s: seq<octet>)
    ensures Decode(s) == Decode(Significant(s))
  {
    SignificantIsSignificant(s);
    SignificantFixed(Significant(s));
  }

  lemma {:induction false} NoiseIsInsignificant(noise: seq<octet>)
    requires forall c :: c in noise ==> Value(c) == INVALID
    ensures Significant(noise) == []
  {
    if noise != [] {
      assert noise[0] in noise && forall c :: c in noise[1..] ==> c in noise;
      NoiseIsInsignificant(noise[1..]);
    }
  }

  /** Characters outside the alphabet are harmless wherever they are inserted. */
  lemma InsertedNoiseIsHarmless(s: seq<octet>, noise: seq<octet>, t: seq<octet>)
    requires forall c :: c in noise ==> Value(c) == INVALID
    ensures Decode(s + noise + t) == Decode(s + t)
  {
    NoiseIsInsignificant(noise);
    SignificantConcat(s + noise, t);
    SignificantConcat(s, noise);
    SignificantConcat(s, t);
    assert Significant(s + noise + t) == Significant(s + t);
  }

  // ---------- The round trip ----------

  lemma SymbolIsSignificant(i: octet)
    requires i < 64
    ensures Value(Symbol(i)) != INVALID && Symbol(i) != PAD && Value(Symbol(i)) == i
  {
  }

  lemma IndicesRoundTrip(a: octet, b: octet, c: octet)
    ensures Octets(Index0(a), Index1(a, b), Index2(b, c), Index3(c)) == [a, b, c]
    ensures var o := Octets(Index0(a), Index1(a, b), Index2(b, c), 0); o[0] == a && o[1] == b
    ensures Octets(Index0(a), Index1(a, b), 0, 0)[0] == a
  {
  }

  /** Encodings consist of symbols and pads, so nothing in them is skipped. */
  lemma {:induction false} EncodingIsSignificant(s: seq<octet>)
    ensures AllSignificant(Encode(s))
  {
    hide Group, Symbol, Symbols, Index0, Index1, Index2, Index3, Value;
    PadIsSignificant();
    if |s| == 0 {
    } else if |s| == 1 {
      assert s == [s[0]];
      EncodeOne(s[0]);
      SymbolIsSignificant(Index0(s[0]));
      SymbolIsSignificant(Index1(s[0], 0));
    } else if |s| == 2 {
      assert s == [s[0], s[1]];
      EncodeTwo(s[0], s[1]);
      SymbolIsSignificant(Index0(s[0]));
      SymbolIsSignificant(Index1(s[0], s[1]));
      SymbolIsSignificant(Index2(s[1], 0));
    } else {
      assert s[0..] == s;
      EncodeStep(s, 0);
      SymbolIsSignificant(Index0(s[0]));
      SymbolIsSignificant(Index1(s[0], s[1]));
      SymbolIsSignificant(Index2(s[1], s[2]));
      SymbolIsSignificant(Index3(s[2]));
      EncodingIsSignificant(s[3..]);
    }
  }

  lemma PadIsSignificant()
    ensures Value(PAD) == 0 && 0 != INVALID
  {
  }

  lemma PadsOfQuad(q: seq<octet>)
    requires |q| == 4
    ensures Pads(q) == Pads(q[..1]) + Pads(q[1..2]) + Pads(q[2..3]) + Pads(q[3..])
    ensures forall i :: 0 <= i < 4 ==> Pads(q[i..i + 1]) == if q[i] == PAD then 1 else 0
  {
    assert Pads(q[1..]) == Pads(q[1..2]) + Pads(q[2..]) && q[1..][1..] == q[2..];
    assert Pads(q[2..]) == Pads(q[2..3]) + Pads(q[3..]) && q[2..][1..] == q[3..];
    assert q[3..][1..] == [];
  }

  /** A quad without pads is three whole octets in front of the rest. */
  lemma FullQuad(v: octet, w: octet, x: octet, y: octet, rest: seq<octet>)
    requires v < 64 && w < 64 && x < 64 && y < 64 && AllSignificant(rest)
    ensures var q := [Symbol(v), Symbol(w), Symbol(x), Symbol(y)];
      AllSignificant(q + rest) && DecodeQuads(q + rest) == Prepended(Octets(v, w, x, y), DecodeQuads(rest))
  {
    hide Symbol, Value, Octets;
    SymbolIsSignificant(v);
    SymbolIsSignificant(w);
    SymbolIsSignificant(x);
    SymbolIsSignificant(y);
    var q := [Symbol(v), Symbol(w), Symbol(x), Symbol(y)];
    assert (q + rest)[..4] == q && (q + rest)[4..] == rest;
    assert Pads(q) == 0 by {
      PadsOfQuad(q);
    }
  }

  /** Decoding the encoding of `s` gives `s` back; a padded encoding hides whatever follows it, and an unpadded
      one is followed by the decoding of the rest. */
  lemma {:induction false} QuadsRoundTrip(s: seq<octet>, t: seq<octet>)
    requires AllSignificant(t)
    ensures AllSignificant(Encode(s) + t)
    ensures DecodeQuads(Encode(s) + t) == if |s| % 3 != 0 then Some(s) else Prepended(s, DecodeQuads(t))
  {
    hide Group, Symbol, Symbols, Index0, Index1, Index2, Index3, Value, Octets, Encode, DecodeQuads;
    EncodingIsSignificant(s);
    if |s| == 0 {
      EncodeNothing();
      assert s == [] && [] + t == t;
      NothingPrepended(DecodeQuads(t));
    } else if |s| == 1 {
      assert s == [s[0]];
      EncodeOne(s[0]);
      TwoPads(Index0(s[0]), Index1(s[0], 0), t);
      IndicesRoundTrip(s[0], 0, 0);
      assert Octets(Index0(s[0]), Index1(s[0], 0), 0, 0)[..1] == [s[0]];
    } else if |s| == 2 {
      assert s == [s[0], s[1]];
      EncodeTwo(s[0], s[1]);
      OnePad(Index0(s[0]), Index1(s[0], s[1]), Index2(s[1], 0), t);
      IndicesRoundTrip(s[0], s[1], 0);
      assert Octets(Index0(s[0]), Index1(s[0], s[1]), Index2(s[1], 0), 0)[..2] == [s[0], s[1]];
    } else {
      QuadsRoundTrip(s[3..], t);
      GroupRoundTrip(s, t);
      var d := DecodeQuads(t);
      if d.Some? { assert s[..3] + (s[3..] + d.value) == s + d.value; }
      assert s[..3] + s[3..] == s;
    }
  }

  lemma NothingPrepended(d: Option<seq<octet>>)
    ensures Prepended([], d) == d
  {
    if d.Some? { assert [] + d.value == d.value; }
  }

  /** The first group of a longer string. */
  lemma GroupRoundTrip(s: seq<octet>, t: seq<octet>)
    requires |s| > 2 && AllSignificant(Encode(s[3..]) + t)
    ensures AllSignificant(Encode(s) + t)
    ensures DecodeQuads(Encode(s) + t) == Prepended(s[..3], DecodeQuads(Encode(s[3..]) + t))
  {
    hide Group, Symbol, Symbols, Index0, Index1, Index2, Index3, Value, Octets, Encode, DecodeQuads;
    assert s[0..] == s;
    EncodeStep(s, 0);
    FullQuad(Index0(s[0]), Index1(s[0], s[1]), Index2(s[1], s[2]), Index3(s[2]), Encode(s[3..]) + t);
    IndicesRoundTrip(s[0], s[1], s[2]);
    var q := [Symbol(Index0(s[0])), Symbol(Index1(s[0], s[1])), Symbol(Index2(s[1], s[2])), Symbol(Index3(s[2]))];
    assert q + (Encode(s[3..]) + t) == (q + Encode(s[3..])) + t;
    assert s[..3] == [s[0], s[1], s[2]];
  }

  lemma EncodeNothing()
    ensures Encode([]) == [] && DecodeQuads([]) == Some([])
  {
  }

  lemma OnePad(v: octet, w: octet, x: octet, t: seq<octet>)
    requires v < 64 && w < 64 && x < 64 && AllSignificant(t)
    ensures var q := [Symbol(v), Symbol(w), Symbol(x), PAD];
      AllSignificant(q + t) && DecodeQuads(q + t) == Some(Octets(v, w, x, 0)[..2])
  {
    hide Symbol, Value, Octets;
    SymbolIsSignificant(v);
    SymbolIsSignificant(w);
    SymbolIsSignificant(x);
    PadIsSignificant();
    var q := [Symbol(v), Symbol(w), Symbol(x), PAD];
    assert (q + t)[..4] == q;
    assert Pads(q) == 1 by {
      PadsOfQuad(q);
    }
  }

  lemma TwoPads(v: octet, w: octet, t: seq<octet>)
    requires v < 64 && w < 64 && AllSignificant(t)
    ensures var q := [Symbol(v), Symbol(w), PAD, PAD];
      AllSignificant(q + t) && DecodeQuads(q + t) == Some(Octets(v, w, 0, 0)[..1])
  {
    hide Symbol, Value, Octets;
    SymbolIsSignificant(v);
    SymbolIsSignificant(w);
    PadIsSignificant();
    var q := [Symbol(v), Symbol(w), PAD, PAD];
    assert (q + t)[..4] == q;
    assert Pads(q) == 2 by {
      PadsOfQuad(q);
    }
  }

  lemma DecodeOfEncoding(s: seq<octet>, t: seq<octet>)
    requires |Encode(s)| + |Significant(t)| > 0 && |Significant(t)| % 4 == 0
    ensures AllSignificant(Significant(t))
    ensures Decode(Encode(s) + t) == if |s| % 3 != 0 then Some(s) else Prepended(s, DecodeQuads(Significant(t)))
  {
    hide Encode, DecodeQuads, Value, Significant, AllSignificant;
    EncodeLength(s);
    EncodingIsSignificant(s);
    SignificantIsSignificant(t);
    SignificantFixed(Encode(s));
    SignificantConcat(Encode(s), t);
    QuadsRoundTrip(s, Significant(t));
  }

  /** The round trip holds exactly for the non-empty strings: the decoder refuses an empty input. */
  lemma RoundTrip(s: seq<octet>)
    ensures Decode(Encode(s)) == Some(s) <==> s != []
    ensures s == [] ==> Decode(Encode(s)) == None
  {
    hide Encode, DecodeQuads, Value;
    EncodeNothing();
    if s != [] {
      EncodeLength(s);
      DecodeOfEncoding(s, []);
      assert Encode(s) + [] == Encode(s);
      assert s + [] == s;
    }
  }

  /** What follows a padded encoding, in whole quads, is not looked at. */
  lemma PaddingEndsTheData(s: seq<octet>, t: seq<octet>)
    requires |s| % 3 != 0 && |Significant(t)| % 4 == 0
    ensures Decode(Encode(s) + t) == Some(s)
  {
    hide Encode, DecodeQuads, Decode, Significant;
    EncodeLength(s);
    DecodeOfEncoding(s, t);
  }

  /** Encodings of whole groups can be joined. */
  lemma EncodingsJoin(s: seq<octet>, t: seq<octet>)
    requires |s| % 3 == 0 && t != []
    ensures Decode(Encode(s) + Encode(t)) == Some(s + t)
  {
    hide Encode, DecodeQuads, Decode, Significant, Value;
    EncodeLength(t);
    EncodingIsSignificant(t);
    SignificantFixed(Encode(t));
    DecodeOfEncoding(s, Encode(t));
    QuadsRoundTrip(t, []);
    assert Encode(t) + [] == Encode(t);
    EncodeNothing();
    assert t + [] == t;
  }

  // ---------- The decoding, octet by octet ----------

  /** The place of a character in the alphabet, looked for from place `k` on. */
  function PlaceFrom(c: octet, k: nat): int
    requires k <= 64
    decreases 64 - k
  {
    if k == 64 then -1 else if AlphabetAt(k) as int == c as int then k else PlaceFrom(c, k + 1)
  }

  /** What a character stands for: its place in the alphabet, 0 for the equals sign. */
  function PlaceOf(c: octet): int {
    if c as int == '=' as int then 0 else PlaceFrom(c, 0)
  }

  lemma {:induction false} PlaceFound(c: octet, k: nat, n: nat)
    requires k <= n < 64 && AlphabetAt(n) as int == c as int
    ensures PlaceFrom(c, k) == n
    decreases n - k
  {
    if k < n {
      AlphabetCodes(k);
      AlphabetCodes(n);
      PlaceFound(c, k + 1, n);
    }
  }

  lemma {:induction false} PlaceIsPlace(c: octet, k: nat)
    requires k <= 64
    ensures PlaceFrom(c, k) == -1 || (k <= PlaceFrom(c, k) < 64 && AlphabetAt(PlaceFrom(c, k)) as int == c as int)
    decreases 64 - k
  {
    if k < 64 { PlaceIsPlace(c, k + 1); }
  }

  /** The decoder looks at the characters of the alphabet and the equals sign, and takes each for its place. */
  lemma ValueIsPlace(c: octet)
    ensures Value(c) != INVALID <==> PlaceOf(c) != -1
    ensures Value(c) != INVALID ==> Value(c) as int == PlaceOf(c)
  {
    PadIsEquals();
    IndexInjective(c, PAD);
    if c != PAD {
      hide AlphabetAt, Symbol, PlaceFrom;
      if Value(c) != INVALID {
        SymbolOfValue(c);
        BelowSixtyFour(Value(c));
        SymbolAt(Value(c), Value(c) as int);
        PlaceFound(c, 0, Value(c) as int);
      } else {
        PlaceIsPlace(c, 0);
        if PlaceFrom(c, 0) != -1 { NoPlace(c, PlaceFrom(c, 0)); }
      }
    }
  }

  lemma NoPlace(c: octet, k: nat)
    requires k < 64 && Value(c) == INVALID
    ensures AlphabetAt(k) as int != c as int
  {
    var i := k as octet;
    assert i < 64 && i as int == k;
    SymbolAt(i, k);
    ValueOfSymbol(i);
    IndexInjective(c, Symbol(i));
  }

  /** The characters decoded: those of the alphabet and the equals sign, in order. */
  function Characters(s: seq<octet>): seq<octet> {
    if s == [] then [] else (if PlaceOf(s[0]) != -1 then [s[0]] else []) + Characters(s[1..])
  }

  lemma {:induction false} SignificantAreCharacters(s: seq<octet>)
    ensures Significant(s) == Characters(s)
  {
    if s != [] {
      hide Value, PlaceOf, Significant;
      SignificantAreCharacters(s[1..]);
      ValueIsPlace(s[0]);
      FirstOfSignificant(s);
    }
  }

  /** The place of the first equals sign. */
  function FirstEquals(q: seq<octet>): (n: nat)
    ensures n <= |q|
  {
    if q == [] || q[0] as int == '=' as int then 0 else 1 + FirstEquals(q[1..])
  }

  /** How many equals signs there are. */
  function Equals(q: seq<octet>): nat {
    if q == [] then 0 else (if q[0] as int == '=' as int then 1 else 0) + Equals(q[1..])
  }

  lemma {:induction false} PadsAreEquals(q: seq<octet>)
    ensures Pads(q) == Equals(q)
    ensures Equals(q) == 0 <==> FirstEquals(q) == |q|
  {
    if q != [] {
      PadIsEquals();
      IndexInjective(q[0], PAD);
      PadsAreEquals(q[1..]);
    }
  }

  lemma {:induction false} EqualsOfConcat(q: seq<octet>, t: seq<octet>)
    ensures FirstEquals(q + t) == if FirstEquals(q) < |q| then FirstEquals(q) else |q| + FirstEquals(t)
  {
    if q == [] {
      assert q + t == t;
    } else {
      EqualsOfConcat(q[1..], t);
      assert (q + t)[1..] == q[1..] + t;
    }
  }

  /** The `j`-th octet of quad `k`. */
  function QuadOctet(q: seq<octet>, k: nat, j: nat): int
    requires 4 * k + 4 <= |q|
  {
    OctetOf(PlaceOf(q[4 * k]), PlaceOf(q[4 * k + 1]), PlaceOf(q[4 * k + 2]), PlaceOf(q[4 * k + 3]), j)
  }

  /** How many octets the quads `q` decode to: three for each quad, less one for each equals sign of the first quad that
      has one, and none for the quads behind it. */
  function OctetCount(q: seq<octet>): int {
    var n := FirstEquals(q) / 4;
    if 4 * n + 4 <= |q| then 3 * n + 3 - Equals(q[4 * n..4 * n + 4]) else 3 * n
  }

  /** Whole quads, the first with an equals sign having at most two. */
  predicate Decodable(q: seq<octet>) {
    var n := FirstEquals(q) / 4;
    |q| > 0 && |q| % 4 == 0 && (4 * n + 4 <= |q| ==> Equals(q[4 * n..4 * n + 4]) <= 2)
  }

  ghost predicate IsDecodingOf(d: seq<octet>, q: seq<octet>) {
    && |d| == OctetCount(q)
    && forall i :: 0 <= i < |d| ==> 4 * (i / 3) + 4 <= |q| && d[i] as int == QuadOctet(q, i / 3, i % 3)
  }

  lemma ShiftedNumbers(v: octet, w: octet, x: octet, y: octet)
    requires v < 64 && w < 64 && x < 64 && y < 64
    ensures Shifted(v, w, x, y)[0] as int == 4 * (v as int) + w as int / 16
    ensures Shifted(v, w, x, y)[1] as int == w as int % 16 * 16 + x as int / 4
    ensures Shifted(v, w, x, y)[2] as int == x as int % 4 * 64 + y as int
  {
    Shift2(v);
    HighestFour(w);
    DisjointPairs(v << 2, w >> 4);
    LowestFour(w);
    Highest(x);
    DisjointNibbles(w << 4, x >> 2);
    Shift6(x);
    DisjointSextets(x << 6, y);
  }

  lemma OctetsAreGroup(v: octet, w: octet, x: octet, y: octet)
    requires v < 64 && w < 64 && x < 64 && y < 64
    ensures Octets(v, w, x, y)[0] as int == OctetOf(v as int, w as int, x as int, y as int, 0)
    ensures Octets(v, w, x, y)[1] as int == OctetOf(v as int, w as int, x as int, y as int, 1)
    ensures Octets(v, w, x, y)[2] as int == OctetOf(v as int, w as int, x as int, y as int, 2)
  {
    hide Octets, Shifted, OctetOf;
    SextetNumber(v);
    SextetNumber(w);
    SextetNumber(x);
    SextetNumber(y);
    ShiftsMakeOctets(v, w, x, y);
    ShiftedNumbers(v, w, x, y);
    GroupOctets(v as int, w as int, x as int, y as int);
  }

  lemma QuadIsDecoded(q: seq<octet>, j: nat)
    requires |q| == 4 && AllSignificant(q) && j < 3
    ensures QuadOctets(q)[j] as int == QuadOctet(q, 0, j)
  {
    hide Value, PlaceOf, Octets, OctetOf;
    ValueIsSextet(q[0]);
    ValueIsSextet(q[1]);
    ValueIsSextet(q[2]);
    ValueIsSextet(q[3]);
    ValueIsPlace(q[0]);
    ValueIsPlace(q[1]);
    ValueIsPlace(q[2]);
    ValueIsPlace(q[3]);
    OctetsAreGroup(Value(q[0]), Value(q[1]), Value(q[2]), Value(q[3]));
    assert j == 0 || j == 1 || j == 2;
  }

  /** In front of other quads, a quad without equals signs adds three octets. */
  lemma CountStep(q: seq<octet>, t: seq<octet>)
    requires |q| == 4 && Equals(q) == 0 && |t| % 4 == 0
    ensures OctetCount(q + t) == 3 + OctetCount(t)
    ensures t != [] ==> (Decodable(q + t) <==> Decodable(t))
    ensures t == [] ==> Decodable(q + t)
  {
    PadsAreEquals(q);
    EqualsOfConcat(q, t);
    hide Equals, FirstEquals;
    var n := FirstEquals(t) / 4;
    assert FirstEquals(q + t) / 4 == n + 1;
    if 4 * n + 4 <= |t| {
      assert (q + t)[4 * (n + 1)..4 * (n + 1) + 4] == t[4 * n..4 * n + 4];
    }
  }

  lemma LaterOctets(q: seq<octet>, t: seq<octet>, k: nat, j: nat)
    requires |q| == 4 && 4 * k + 4 <= |t|
    ensures QuadOctet(q + t, k + 1, j) == QuadOctet(t, k, j)
  {
    hide PlaceOf, OctetOf;
  }

  lemma FirstOctets(q: seq<octet>, t: seq<octet>, j: nat)
    requires |q| == 4
    ensures QuadOctet(q + t, 0, j) == QuadOctet(q, 0, j)
  {
    hide PlaceOf, OctetOf;
  }

  lemma PaddedFirst(q: seq<octet>, t: seq<octet>)
    requires |q| == 4 && Equals(q) != 0 && |t| % 4 == 0
    ensures OctetCount(q + t) == 3 - Equals(q)
    ensures Decodable(q + t) <==> Equals(q) <= 2
  {
    PadsAreEquals(q);
    EqualsOfConcat(q, t);
    hide Equals, FirstEquals;
    assert FirstEquals(q + t) < 4 && FirstEquals(q + t) / 4 == 0;
    assert (q + t)[0..4] == q;
  }

  /** What whole quads decode to, octet by octet. */
  lemma {:induction false} QuadsAreDecoded(q: seq<octet>)
    requires AllSignificant(q) && |q| % 4 == 0 && q != []
    ensures DecodeQuads(q).Some? <==> Decodable(q)
    ensures DecodeQuads(q).Some? ==> IsDecodingOf(DecodeQuads(q).value, q)
  {
    hide Value, QuadOctets, DecodeQuads, Pads, Equals, Decodable, IsDecodingOf;
    var h, t := q[..4], q[4..];
    assert q == h + t && AllSignificant(h) && AllSignificant(t);
    CompleteQuad(h, t);
    PadsAreEquals(h);
    if Pads(h) == 0 {
      CountStep(h, t);
      if t != [] { QuadsAreDecoded(t); } else { NothingDecoded(t); }
      if DecodeQuads(t).Some? { QuadPrepended(h, t, DecodeQuads(t).value); }
    } else {
      PaddedFirst(h, t);
      if Equals(h) <= 2 { OnlyQuad(h, t, Equals(h)); }
    }
  }

  lemma NothingDecoded(t: seq<octet>)
    requires t == []
    ensures AllSignificant(t) && DecodeQuads(t) == Some([]) && IsDecodingOf([], t)
  {
  }

  lemma QuadPrepended(h: seq<octet>, t: seq<octet>, d: seq<octet>)
    requires |h| == 4 && AllSignificant(h) && OctetCount(h + t) == 3 + OctetCount(t) && IsDecodingOf(d, t)
    ensures IsDecodingOf(QuadOctets(h) + d, h + t)
  {
    hide Value, QuadOctets, QuadOctet, OctetCount;
    var e := QuadOctets(h) + d;
    forall i | 0 <= i < |e|
      ensures 4 * (i / 3) + 4 <= |h + t| && e[i] as int == QuadOctet(h + t, i / 3, i % 3)
    {
      if i < 3 {
        assert i / 3 == 0 && i % 3 == i;
        QuadIsDecoded(h, i);
        FirstOctets(h, t, i);
      } else {
        assert i / 3 == (i - 3) / 3 + 1 && i % 3 == (i - 3) % 3;
        assert e[i] == d[i - 3];
        LaterOctets(h, t, (i - 3) / 3, (i - 3) % 3);
      }
    }
  }

  lemma OnlyQuad(h: seq<octet>, t: seq<octet>, pads: nat)
    requires |h| == 4 && AllSignificant(h) && 0 < pads <= 2 && OctetCount(h + t) == 3 - pads
    ensures IsDecodingOf(QuadOctets(h)[..3 - pads], h + t)
  {
    hide Value, QuadOctets, QuadOctet, OctetCount;
    forall i | 0 <= i < 3 - pads
      ensures 4 * (i / 3) + 4 <= |h + t| && QuadOctets(h)[i] as int == QuadOctet(h + t, i / 3, i % 3)
    {
      assert i / 3 == 0 && i % 3 == i;
      QuadIsDecoded(h, i);
      FirstOctets(h, t, i);
    }
  }

  /** What a string decodes to, said of its characters alone. An incomplete quad is refused, and so are no characters
      and more than two equals signs in the first quad that has one; otherwise each octet is the one its quad stands
      for. */
  lemma DecodeIsDecoding(s: seq<octet>)
    ensures Decode(s).Some? <==> Decodable(Characters(s))
    ensures Decode(s).Some? ==> IsDecodingOf(Decode(s).value, Characters(s))
    ensures |Characters(s)| % 4 != 0 ==> Decode(s) == None
  {
    SignificantAreCharacters(s);
    SignificantIsSignificant(s);
    hide Value, DecodeQuads, Significant, Characters, IsDecodingOf;
    var q := Significant(s);
    if q != [] && |q| % 4 == 0 { QuadsAreDecoded(q); }
  }

  // ---------- The decoder ----------

  lemma IndexInjective(c: octet, d: octet)
    ensures c as int == d as int <==> c == d
  {
  }

  /** The table entry of `c` once the first `i` symbols are entered. */
  function Entered(c: octet, i: octet): octet {
    if c != PAD && Value(c) != INVALID && Value(c) < i then Value(c) else INVALID
  }

  /** The table once the first `i` symbols are entered. */
  ghost predicate HasEntered(t: seq<octet>, i: octet) {
    |t| == 256 && forall c: octet :: t[c as int] == Entered(c, i)
  }

  /** The finished table. */
  ghost predicate IsTable(t: seq<octet>) {
    |t| == 256 && forall c: octet :: t[c as int] == Value(c)
  }

  lemma Lookup(t: seq<octet>, c: octet)
    requires IsTable(t)
    ensures c as int < |t| && t[c as int] == Value(c)
  {
  }

  /** The lookup table the decoder fills. */
  method BuildTable() returns (dtable: array<octet>)
    ensures fresh(dtable) && dtable.Length == 256 && IsTable(dtable[..])
  {
    hide Value, Symbol, HasEntered, IsTable;
    dtable := new octet[256](_ => INVALID);
    var i: octet := 0;
    NothingEntered(dtable[..]);
    while i < 64
      invariant 0 <= i <= 64
      invariant HasEntered(dtable[..], i)
      decreases 64 - i
    {
      EnterSymbol(dtable[..], i);
      dtable[Symbol(i) as int] := i;
      i := i + 1;
    }
    AllEntered(dtable[..]);
    dtable[PAD as int] := 0;
  }

  lemma NothingEntered(t: seq<octet>)
    requires |t| == 256 && forall k :: 0 <= k < 256 ==> t[k] == INVALID
    ensures HasEntered(t, 0)
  {
  }

  lemma SymbolEntered(c: octet, i: octet)
    requires i < 64
    ensures Entered(c, i + 1) == if c == Symbol(i) then i else Entered(c, i)
  {
    ValueOfSymbol(i);
    if Value(c) == i && c != PAD { SymbolOfValue(c); }
  }

  lemma EnterSymbol(t: seq<octet>, i: octet)
    requires i < 64 && HasEntered(t, i)
    ensures Symbol(i) as int < 256
    ensures HasEntered(t[Symbol(i) as int := i], i + 1)
  {
    hide Value, Symbol, Entered;
    var t', j := t[Symbol(i) as int := i], i + 1;
    forall c: octet
      ensures t'[c as int] == Entered(c, j)
    {
      SymbolEntered(c, i);
      IndexInjective(c, Symbol(i));
      assert t[c as int] == Entered(c, i);
    }
  }

  lemma AllEntered(t: seq<octet>)
    requires HasEntered(t, 64)
    ensures IsTable(t[PAD as int := 0])
  {
    var t' := t[PAD as int := 0];
    forall c: octet
      ensures t'[c as int] == Value(c)
    {
      IndexInjective(c, PAD);
      assert t[c as int] == Entered(c, 64);
    }
  }

  lemma CountsSplit(s: seq<octet>, i: nat)
    requires i < |s|
    ensures Significant(s[i..]) == (if Value(s[i]) == INVALID then [] else [s[i]]) + Significant(s[i + 1..])
  {
    assert s[i..][1..] == s[i + 1..];
  }

  lemma PadsConcat(s: seq<octet>, c: octet)
    ensures Pads(s + [c]) == Pads(s) + if c == PAD then 1 else 0
  {
    if s == [] {
    } else {
      PadsConcat(s[1..], c);
      assert (s + [c])[1..] == s[1..] + [c];
    }
  }

  /** What the C code makes of a complete quad. */
  lemma CompleteQuad(q: seq<octet>, rest: seq<octet>)
    requires |q| == 4 && AllSignificant(q) && AllSignificant(rest)
    ensures QuadOctets(q) == Shifted(Value(q[0]), Value(q[1]), Value(q[2]), Value(q[3]))
    ensures DecodeQuads(q + rest) ==
      if Pads(q) == 0 then Prepended(QuadOctets(q), DecodeQuads(rest))
      else if Pads(q) <= 2 then Some(QuadOctets(q)[..3 - Pads(q)])
      else None
  {
    hide Value;
    ValueIsSextet(q[0]);
    ValueIsSextet(q[1]);
    ValueIsSextet(q[2]);
    ValueIsSextet(q[3]);
    ShiftsMakeOctets(Value(q[0]), Value(q[1]), Value(q[2]), Value(q[3]));
    hide Octets;
    assert (q + rest)[..4] == q && (q + rest)[4..] == rest;
  }

  /** The state of the decoder ahead of character `i`: the octets of the complete quads are in `done`,
      and `pending` are the characters of the incomplete one. */
  ghost predicate Decoding(src: seq<octet>, i: nat, done: seq<octet>, pending: seq<octet>) {
    && i <= |src| && |pending| < 4
    && AllSignificant(pending) && AllSignificant(Significant(src)) && AllSignificant(Significant(src[i..]))
    && 4 * |done| + 3 * (|pending| + |Significant(src[i..])|) == 3 * |Significant(src)|
    && DecodeQuads(Significant(src)) == Prepended(done, DecodeQuads(pending + Significant(src[i..])))
  }

  lemma DecodingStarts(src: seq<octet>)
    ensures Decoding(src, 0, [], [])
  {
    SignificantIsSignificant(src);
    assert src[0..] == src;
    assert [] + Significant(src) == Significant(src);
    var d := DecodeQuads(Significant(src));
    if d.Some? { assert [] + d.value == d.value; }
  }

  lemma SkipCharacter(src: seq<octet>, i: nat, done: seq<octet>, pending: seq<octet>)
    requires i < |src| && Decoding(src, i, done, pending) && Value(src[i]) == INVALID
    ensures Decoding(src, i + 1, done, pending)
  {
    hide DecodeQuads, Value;
    CountsSplit(src, i);
    assert Significant(src[i..]) == Significant(src[i + 1..]);
  }

  /** Taking a significant character. */
  lemma TakeCharacter(src: seq<octet>, i: nat, done: seq<octet>, pending: seq<octet>)
    requires i < |src| && Decoding(src, i, done, pending) && Value(src[i]) != INVALID
    ensures var q, rest := pending + [src[i]], Significant(src[i + 1..]);
      && AllSignificant(q) && AllSignificant(rest)
      && 4 * |done| + 3 * (|q| + |rest|) == 3 * |Significant(src)|
      && AllSignificant(Significant(src))
      && DecodeQuads(Significant(src)) == Prepended(done, DecodeQuads(q + rest))
      && (|q| < 4 ==> Decoding(src, i + 1, done, q))
  {
    hide DecodeQuads, Value;
    CountsSplit(src, i);
    SignificantIsSignificant(src[i + 1..]);
    var q, rest := pending + [src[i]], Significant(src[i + 1..]);
    assert pending + Significant(src[i..]) == q + rest;
    assert forall c :: c in q ==> c in pending || c == src[i];
  }

  /** A complete quad without pads moves on to the next quad. */
  lemma NextQuad(src: seq<octet>, i: nat, done: seq<octet>, q: seq<octet>)
    requires i <= |src| && |q| == 4 && AllSignificant(q) && AllSignificant(Significant(src[i..]))
    requires AllSignificant(Significant(src)) && Pads(q) == 0
    requires 4 * |done| + 3 * (4 + |Significant(src[i..])|) == 3 * |Significant(src)|
    requires DecodeQuads(Significant(src)) == Prepended(done, DecodeQuads(q + Significant(src[i..])))
    ensures Decoding(src, i, done + QuadOctets(q), [])
  {
    hide Value, QuadOctets, DecodeQuads, Pads, Significant;
    var rest := Significant(src[i..]);
    CompleteQuad(q, rest);
    assert [] + rest == rest;
    var d := DecodeQuads(rest);
    if d.Some? { assert done + (QuadOctets(q) + d.value) == (done + QuadOctets(q)) + d.value; }
  }

  /** A complete quad with pads ends the data, or is refused. */
  lemma LastQuad(src: seq<octet>, i: nat, done: seq<octet>, q: seq<octet>)
    requires i <= |src| && |q| == 4 && AllSignificant(q) && AllSignificant(Significant(src[i..]))
    requires AllSignificant(Significant(src)) && Pads(q) != 0
    requires DecodeQuads(Significant(src)) == Prepended(done, DecodeQuads(q + Significant(src[i..])))
    ensures DecodeQuads(Significant(src)) == if Pads(q) <= 2 then Some(done + QuadOctets(q)[..3 - Pads(q)]) else None
  {
    hide Value, QuadOctets, DecodeQuads, Pads, Significant;
    CompleteQuad(q, Significant(src[i..]));
  }

  /** `b64_decode`: null if there is no character to decode, an incomplete quad, or a quad with too many pads. */
  method B64Decode(src: seq<octet>) returns (out: array?<octet>, outLen: nat)
    ensures out == null <==> Decode(src) == None
    ensures out != null ==>
      && fresh(out) && outLen <= out.Length == |Significant(src)| / 4 * 3
      && Decode(src) == Some(out[..outLen])
    ensures out != null <==> Decodable(Characters(src))
    ensures out != null ==> IsDecodingOf(out[..outLen], Characters(src))
  {
    DecodeIsDecoding(src);
    hide Value, DecodeQuads, QuadOctets, Octets, Significant, Decoding, IsTable, Decodable, IsDecodingOf, Characters;
    var dtable := BuildTable();
    var count := 0;
    SignificantIsSignificant(src);
    assert src[0..] == src;
    for i := 0 to |src|
      invariant IsTable(dtable[..])
      invariant count + |Significant(src[i..])| == |Significant(src)|
    {
      CountsSplit(src, i);
      Lookup(dtable[..], src[i]);
      if dtable[src[i] as int] != INVALID { count := count + 1; }
    }
    SignificantOfNothing(src);
    if count == 0 || count % 4 != 0 { return null, 0; }
    var olen := count / 4 * 3;
    out, outLen := DecodeInto(dtable, src, olen);
  }

  lemma SignificantOfNothing(src: seq<octet>)
    ensures Significant(src[|src|..]) == []
  {
  }

  /** The second pass of the decoder. */
  method DecodeInto(dtable: array<octet>, src: seq<octet>, olen: nat) returns (out: array?<octet>, pos: nat)
    requires dtable.Length == 256 && IsTable(dtable[..])
    requires AllSignificant(Significant(src)) && |Significant(src)| % 4 == 0 && olen == |Significant(src)| / 4 * 3
    ensures out == null <==> DecodeQuads(Significant(src)) == None
    ensures out != null ==> fresh(out) && pos <= out.Length == olen && DecodeQuads(Significant(src)) == Some(out[..pos])
  {
    hide Value, DecodeQuads, QuadOctets, Octets, Significant, Decoding, Pads, IsTable, Shifted;
    hide AllSignificant, Prepended;
    var buf := new octet[olen];
    var block := new octet[4];
    var count, pad := 0, 0;
    ghost var pending: seq<octet> := [];
    pos := 0;
    NoPads();
    DecodingStarts(src);
    for i := 0 to |src|
      invariant pos <= olen && count == |pending| < 4 && pad == Pads(pending)
      invariant fresh(block) && fresh(buf) && block.Length == 4 && buf.Length == olen
      invariant block != buf && dtable != block && dtable != buf
      invariant forall j :: 0 <= j < count ==> block[j] == Value(pending[j])
      invariant IsTable(dtable[..])
      invariant Decoding(src, i, buf[..pos], pending)
    {
      Lookup(dtable[..], src[i]);
      var tmp := dtable[src[i] as int];
      if tmp == INVALID {
        SkipCharacter(src, i, buf[..pos], pending);
        continue;
      }
      TakeCharacter(src, i, buf[..pos], pending);
      PadsConcat(pending, src[i]);
      ghost var q := pending + [src[i]];
      if src[i] == PAD { pad := pad + 1; }
      block[count] := tmp;
      count := count + 1;
      pending := q;
      if count == 4 {
        CompleteQuad(q, Significant(src[i + 1..]));
        ghost var done := buf[..pos];
        var ok;
        pos, ok := StoreQuad(buf, pos, block, pad);
        count := 0;
        if pad != 0 {
          LastQuad(src, i + 1, done, q);
          if !ok { return null, 0; }
          return buf, pos;
        }
        WholeQuad(q);
        NextQuad(src, i + 1, done, q);
        pending := [];
        NoPads();
      }
    }
    DecodingDone(src, buf[..pos], pending);
    return buf, pos;
  }

  /** Stores the three octets of a complete block. */
  method StoreOctets(buf: array<octet>, pos: nat, block: array<octet>)
    requires pos + 3 <= buf.Length && block.Length == 4 && block != buf
    modifies buf
    ensures buf[..pos + 3] == old(buf[..pos]) + Shifted(block[0], block[1], block[2], block[3])
  {
    hide Shifted;
    var s := Shifted(block[0], block[1], block[2], block[3]);
    buf[pos], buf[pos + 1], buf[pos + 2] := s[0], s[1], s[2];
  }

  /** Stores the octets of a complete block, and steps back over those its pads take away. */
  method StoreQuad(buf: array<octet>, pos: nat, block: array<octet>, pad: nat) returns (end: nat, ok: bool)
    requires pos + 3 <= buf.Length && block.Length == 4 && block != buf
    modifies buf
    ensures ok <==> pad <= 2
    ensures ok ==> end == pos + 3 - pad
    ensures ok ==> buf[..end] == old(buf[..pos]) + Shifted(block[0], block[1], block[2], block[3])[..3 - pad]
  {
    hide Shifted;
    StoreOctets(buf, pos, block);
    end, ok := pos + 3, true;
    if pad != 0 {
      if pad == 1 {
        end := end - 1;
      } else if pad == 2 {
        end := end - 2;
      } else {
        ok := false;
      }
    }
    assert ok ==> buf[..end] == buf[..pos + 3][..end];
  }

  lemma WholeQuad(q: seq<octet>)
    requires |q| == 4 && AllSignificant(q)
    ensures QuadOctets(q)[..3] == QuadOctets(q)
  {
  }

  lemma NoPads()
    ensures Pads([]) == 0
  {
  }

  /** At the end nothing is pending, since the number of significant characters is a multiple of four. */
  lemma DecodingDone(src: seq<octet>, done: seq<octet>, pending: seq<octet>)
    requires Decoding(src, |src|, done, pending) && |Significant(src)| % 4 == 0
    ensures DecodeQuads(Significant(src)) == Some(done)
  {
    hide Value;
    assert src[|src|..] == [];
    assert |pending| % 4 == 0;
    assert pending + Significant(src[|src|..]) == [];
    assert done + [] == done;
  }
}
