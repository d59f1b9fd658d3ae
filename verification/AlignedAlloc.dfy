/** The generic aligned allocator: a hidden pointer in front of the payload leads back to the raw block. */
module AlignedAlloc {
  import opened Memory

  // ---------- 64-bit arithmetic ----------

  function Pow2(n: nat): (p: nat)
    ensures p >= 1
  {
    if n == 0 then 1 else 2 * Pow2(n - 1)
  }

  lemma LimitIsPower()
    ensures Pow2(64) == TWO_TO_THE_64 && Pow2(3) == WORD
  {
    assert Pow2(3) == 8 && Pow2(8) == 0x100;
    hide Pow2;
    Pow2Splits(8, 16);
    Pow2Splits(16, 32);
    Pow2Splits(32, 64);
  }

  /** `sizeof(void *)`. */
  const WORD := 8

  function Wrap(x: int): (r: nat)
    ensures r < TWO_TO_THE_64
  {
    x % TWO_TO_THE_64
  }

  /** Bitwise and of two numbers of `n` binary digits. */
  function And(x: nat, y: nat, n: nat): nat {
    if n == 0 then 0 else 2 * And(x / 2, y / 2, n - 1) + (x % 2) * (y % 2)
  }

  /** Bitwise complement. */
  function Not(x: nat): nat
    requires x < TWO_TO_THE_64
  {
    TWO_TO_THE_64 - 1 - x
  }

  predicate PowerOfTwo(a: nat) {
    exists k :: 0 <= k < 64 && a == Pow2(k)
  }

  lemma {:induction false} Pow2Splits(k: nat, n: nat)
    requires k <= n
    ensures Pow2(n) == Pow2(n - k) * Pow2(k)
  {
    if k > 0 {
      Pow2Splits(k - 1, n - 1);
    }
  }

  lemma {:induction false} AndAll(x: nat, n: nat)
    requires x < Pow2(n)
    ensures And(x, Pow2(n) - 1, n) == x
  {
    if n > 0 {
      assert (Pow2(n) - 1) / 2 == Pow2(n - 1) - 1;
      AndAll(x / 2, n - 1);
    }
  }

  lemma HalfOfRemainder(x: nat, a: nat)
    requires a > 0
    ensures x % (2 * a) == 2 * (x / 2 % a) + x % 2
  {
    var h := x / 2;
    var q := h / a;
    assert h == a * q + h % a;
    assert x == 2 * h + x % 2;
    assert x == (2 * a) * q + (2 * (h % a) + x % 2) by {
      assert 2 * (a * q) == (2 * a) * q;
    }
    Quotient(x, 2 * a, q, 2 * (h % a) + x % 2);
  }

  lemma Quotient(x: nat, a: nat, q: nat, r: nat)
    requires x == a * q + r && r < a
    ensures x % a == r && x / a == q
  {
    var d := x / a - q;
    assert a * d == r - x % a;
    if d != 0 {
      Multiple(a, d);
    }
  }

  lemma Multiple(a: nat, d: int)
    requires d != 0
    ensures a * d >= a || a * d + a <= 0
  {
  }

  /** Clearing the `k` lowest bits rounds down to a multiple of their power of two. */
  lemma {:induction false} MaskRoundsDown(x: nat, k: nat, n: nat)
    requires k <= n && x < Pow2(n)
    ensures Pow2(k) <= Pow2(n)
    ensures And(x, Pow2(n) - Pow2(k), n) == x - x % Pow2(k)
  {
    if k == 0 {
      AndAll(x, n);
    } else {
      MaskRoundsDown(x / 2, k - 1, n - 1);
      HalfOfRemainder(x, Pow2(k - 1));
      assert (Pow2(n) - Pow2(k)) / 2 == Pow2(n - 1) - Pow2(k - 1);
    }
  }

  // ---------- Where the payload goes ----------

  function TotalSize(alignment: nat, size: nat): nat {
    Wrap(size + alignment - 1 + WORD)
  }

  function Effective(alignment: nat): nat {
    if alignment < WORD then WORD else alignment
  }

  function Buffer(raw: nat, alignment: nat): nat
    requires 0 < alignment < TWO_TO_THE_64
  {
    And(Wrap(raw + alignment - 1 + WORD), Not(alignment - 1), 64)
  }

  /** The payload is behind the hidden pointer and ends inside the block. */
  ghost predicate Fits(raw: nat, buf: nat, alignment: nat, size: nat) {
    raw + WORD <= buf && buf + size <= raw + TotalSize(alignment, size)
  }

  /** What is used of the powers of two that fit an address. */
  ghost predicate Ordinary(a: nat) {
    && 0 < a && 2 * a <= TWO_TO_THE_64 && TWO_TO_THE_64 % a == 0
    && (if a < WORD then WORD % a == 0 else a % WORD == 0)
  }

  lemma PowersDivide(k: nat, n: nat)
    requires k <= n
    ensures Pow2(n) % Pow2(k) == 0 && Pow2(k) <= Pow2(n) && (k < n ==> 2 * Pow2(k) <= Pow2(n))
  {
    Pow2Splits(k, n);
    Multiples(Pow2(n - k), Pow2(k));
    if k < n {
      assert Pow2(n - k) == 2 * Pow2(n - k - 1);
      assert Pow2(n - k) * Pow2(k) >= 2 * Pow2(k);
    }
  }

  lemma Multiples(q: nat, a: nat)
    requires q > 0 && a > 0
    ensures q * a % a == 0 && q * a >= a
  {
    Quotient(q * a, a, q, 0);
  }

  lemma PowersAreOrdinary(k: nat)
    requires k < 64
    ensures Ordinary(Pow2(k))
  {
    LimitIsPower();
    PowersDivide(k, 64);
    if k < 3 {
      PowersDivide(k, 3);
    } else {
      PowersDivide(3, k);
    }
    hide Pow2;
  }

  lemma BufferIsMask(raw: nat, alignment: nat)
    requires 0 < alignment && raw + alignment + WORD - 1 < TWO_TO_THE_64
    ensures Buffer(raw, alignment) == And(raw + alignment - 1 + WORD, TWO_TO_THE_64 - alignment, 64)
  {
    hide And;
    Quotient(raw + alignment - 1 + WORD, TWO_TO_THE_64, 0, raw + alignment - 1 + WORD);
  }

  lemma Rounded(x: nat, a: nat)
    requires a > 0
    ensures (x - x % a) % a == 0 && x - a < x - x % a <= x
  {
    Quotient(x - x % a, a, x / a, 0);
  }

  /** The mask rounds the first address behind the hidden pointer down to the alignment. */
  lemma BufferIsRounded(raw: nat, alignment: nat)
    requires PowerOfTwo(alignment) && raw + alignment + WORD - 1 < TWO_TO_THE_64
    ensures Ordinary(alignment)
    ensures var end := raw + alignment - 1 + WORD; Buffer(raw, alignment) == end - end % alignment
    ensures Buffer(raw, alignment) % alignment == 0 && raw + WORD <= Buffer(raw, alignment) < raw + WORD + alignment
  {
    var k :| 0 <= k < 64 && alignment == Pow2(k);
    var end := raw + alignment - 1 + WORD;
    LimitIsPower();
    PowersAreOrdinary(k);
    MaskRoundsDown(end, k, 64);
    BufferIsMask(raw, alignment);
    hide *;
    Rounded(end, alignment);
  }

  lemma TotalSizeWraps(alignment: nat, size: nat)
    requires 0 < alignment && size < TWO_TO_THE_64 && alignment < TWO_TO_THE_64 - WORD
    ensures var sum := size + alignment - 1 + WORD;
      TotalSize(alignment, size) == if sum < TWO_TO_THE_64 then sum else sum - TWO_TO_THE_64
  {
    var sum := size + alignment - 1 + WORD;
    var turns := if sum < TWO_TO_THE_64 then 0 else 1;
    Quotient(sum, TWO_TO_THE_64, turns, sum - turns * TWO_TO_THE_64);
  }

  lemma EffectiveIsPower(alignment: nat)
    requires PowerOfTwo(alignment)
    ensures PowerOfTwo(Effective(alignment)) && Ordinary(alignment)
  {
    var k :| 0 <= k < 64 && alignment == Pow2(k);
    PowersAreOrdinary(k);
    hide Pow2;
    LimitIsPower();
  }

  /** The payload fits the block exactly if the size computation does not wrap around and a small alignment,
      which the computation counts before raising it to a word, is made up for by the block's own alignment. */
  lemma FitsExactly(raw: nat, alignment: nat, size: nat)
    requires PowerOfTwo(alignment) && size < TWO_TO_THE_64 && raw + Effective(alignment) + WORD - 1 < TWO_TO_THE_64
    ensures Effective(alignment) < TWO_TO_THE_64
    ensures Fits(raw, Buffer(raw, Effective(alignment)), alignment, size) <==>
            (&& size + alignment - 1 + WORD < TWO_TO_THE_64
             && (alignment >= WORD || raw % WORD == 0 || raw % WORD + alignment > WORD))
  {
    EffectiveIsPower(alignment);
    BufferIsRounded(raw, Effective(alignment));
    TotalSizeWraps(alignment, size);
    hide PowerOfTwo, Buffer, TotalSize;
    if alignment < WORD {
      NextWord(raw);
      FitsSmall(raw, Buffer(raw, WORD), alignment, size);
    } else {
      var buf: int := Buffer(raw, alignment);
      assert buf + size < raw + size + alignment + WORD;
    }
  }

  /** With an alignment below a word the payload starts at the second word boundary not before the block. */
  lemma NextWord(raw: nat)
    ensures var end := raw + 2 * WORD - 1;
      end - end % WORD == if raw % WORD == 0 then raw + WORD else raw + 2 * WORD - raw % WORD
  {
  }

  lemma FitsSmall(raw: nat, buf: nat, alignment: nat, size: nat)
    requires 0 < alignment < WORD && size < TWO_TO_THE_64
    requires buf == if raw % WORD == 0 then raw + WORD else raw + 2 * WORD - raw % WORD
    ensures Fits(raw, buf, alignment, size) <==>
            (size + alignment - 1 + WORD < TWO_TO_THE_64 && (raw % WORD == 0 || raw % WORD + alignment > WORD))
  {
    TotalSizeWraps(alignment, size);
    hide TotalSize;
  }

  /** From a word-aligned block of the size asked for, as `malloc` gives it, every power of two is served: the
      payload is aligned, inside the block, and behind the hidden pointer. */
  lemma AlignedPayload(raw: nat, alignment: nat, size: nat)
    requires PowerOfTwo(alignment) && size + alignment - 1 + WORD < TWO_TO_THE_64
    requires raw % WORD == 0 && raw + TotalSize(alignment, size) < TWO_TO_THE_64
    ensures Effective(alignment) < TWO_TO_THE_64
    ensures var buf := Buffer(raw, Effective(alignment));
      buf % alignment == 0 && buf % WORD == 0 && Fits(raw, buf, alignment, size)
  {
    EffectiveIsPower(alignment);
    TotalSizeWraps(alignment, size);
    RoomForWord(raw, alignment, size);
    var a := Effective(alignment);
    BufferIsRounded(raw, a);
    FitsExactly(raw, alignment, size);
    hide PowerOfTwo, Buffer, TotalSize, Fits;
    AlignedTwice(Buffer(raw, a), alignment);
  }

  /** Raising a small alignment to a word does not leave the address space. */
  lemma RoomForWord(raw: nat, alignment: nat, size: nat)
    requires 0 < alignment && raw % WORD == 0 && raw + size + alignment - 1 + WORD < TWO_TO_THE_64
    ensures raw + Effective(alignment) + WORD - 1 < TWO_TO_THE_64
  {
  }

  /** A multiple of the raised alignment is one of the alignment and of a word. */
  lemma AlignedTwice(x: nat, alignment: nat)
    requires Ordinary(alignment) && x % Effective(alignment) == 0
    ensures x % alignment == 0 && x % WORD == 0
  {
    if alignment < WORD {
      MultipleOf(x, WORD, alignment);
    } else {
      MultipleOf(x, alignment, WORD);
    }
  }

  lemma MultipleOf(x: nat, a: nat, b: nat)
    requires a > 0 && b > 0 && x % a == 0 && a % b == 0
    ensures x % b == 0
  {
    var q, r := x / a, a / b;
    assert x == a * q && a == b * r;
    assert x == b * (r * q);
    Quotient(x, b, r * q, 0);
  }

  // ---------- The hidden pointer ----------

  /** The `n` low bytes of a number, lowest first. */
  function Digits(v: nat, n: nat): (b: seq<byte>)
    ensures |b| == n
  {
    if n == 0 then [] else [v % 256] + Digits(v / 256, n - 1)
  }

  function LoadWord(m: seq<byte>, p: nat): nat
    requires p + WORD <= |m|
  {
    LittleEndian(m[p..p + WORD])
  }

  function StoreWord(m: seq<byte>, p: nat, v: nat): (m': seq<byte>)
    requires p + WORD <= |m|
    ensures |m'| == |m|
  {
    Store(m, p, Digits(v, WORD))
  }

  lemma {:induction false} ValueOfDigits(v: nat, n: nat)
    requires v < Pow2(8 * n)
    ensures LittleEndian(Digits(v, n)) == v
  {
    if n > 0 {
      Pow2Splits(8, 8 * n);
      assert Pow2(8) == 256;
      ValueOfDigits(v / 256, n - 1);
      assert Digits(v, n)[1..] == Digits(v / 256, n - 1);
    }
  }

  lemma LoadOfStore(m: seq<byte>, p: nat, v: nat)
    requires p + WORD <= |m| && v < TWO_TO_THE_64
    ensures LoadWord(StoreWord(m, p, v), p) == v
  {
    LimitIsPower();
    ValueOfDigits(v, WORD);
    assert StoreWord(m, p, v)[p..p + WORD] == Digits(v, WORD);
  }

  /** A word outside the bytes that changed is unchanged. */
  lemma LoadElsewhere(m: seq<byte>, m': seq<byte>, p: nat, lo: nat, hi: nat)
    requires p + WORD <= |m| && SameOutside(m, m', lo, hi) && (p + WORD <= lo || hi <= p)
    ensures LoadWord(m', p) == LoadWord(m, p)
  {
    assert m'[p..p + WORD] == m[p..p + WORD];
  }

  // ---------- The allocator at work ----------

  /** What an aligned allocation was asked for, and the block that serves it. */
  datatype Claim = Claim(raw: nat, alignment: nat, size: nat) {
    function End(): nat {
      raw + TotalSize(alignment, size)
    }
  }

  /** The payload is aligned and inside its block, which is still allocated, and the hidden pointer is intact. */
  ghost predicate Served(m: seq<byte>, blocks: map<nat, nat>, buf: nat, k: Claim) {
    && k.alignment > 0 && buf % k.alignment == 0
    && Fits(k.raw, buf, k.alignment, k.size) && k.End() <= |m|
    && k.raw in blocks && k.raw + blocks[k.raw] == k.End()
    && LoadWord(m, buf - WORD) == k.raw
  }

  predicate Apart(k: Claim, l: Claim) {
    k.End() <= l.raw || l.End() <= k.raw
  }

  ghost predicate AllServed(m: seq<byte>, blocks: map<nat, nat>, claims: map<nat, Claim>) {
    forall b :: b in claims ==> Served(m, blocks, b, claims[b])
  }

  ghost predicate AllApart(claims: map<nat, Claim>) {
    forall b, c :: b in claims && c in claims && b != c ==> Apart(claims[b], claims[c])
  }

  ghost function Raws(claims: map<nat, Claim>): set<nat> {
    set b | b in claims :: claims[b].raw
  }

  /** Every claim is served, from a block of its own, and no other block is allocated. */
  ghost predicate Kept(m: seq<byte>, blocks: map<nat, nat>, claims: map<nat, Claim>) {
    AllServed(m, blocks, claims) && AllApart(claims) && blocks.Keys == Raws(claims)
  }

  /** A block `malloc` may return: word-aligned, in memory, and apart from the blocks in use. */
  ghost predicate Available(m: seq<byte>, blocks: map<nat, nat>, raw: nat, length: nat) {
    && raw != 0 && raw % WORD == 0 && raw + length <= |m| < TWO_TO_THE_64
    && forall r :: r in blocks ==> r + blocks[r] <= raw || raw + length <= r
  }

  /** Bytes that are not in the hidden pointer or block of a claim may change. */
  lemma ServedStill(m: seq<byte>, m': seq<byte>, blocks: map<nat, nat>, buf: nat, k: Claim, lo: nat, hi: nat)
    requires Served(m, blocks, buf, k) && SameOutside(m, m', lo, hi) && (buf <= lo || hi <= k.raw)
    ensures Served(m', blocks, buf, k)
  {
    LoadElsewhere(m, m', buf - WORD, lo, hi);
  }

  lemma ApartStarts(m: seq<byte>, blocks: map<nat, nat>, b: nat, k: Claim, c: nat, l: Claim)
    requires Served(m, blocks, b, k) && Served(m, blocks, c, l) && Apart(k, l)
    ensures k.raw != l.raw
  {
    hide LoadWord, TotalSize;
  }

  lemma WriteKeeps(m: seq<byte>, m': seq<byte>, blocks: map<nat, nat>, claims: map<nat, Claim>, buf: nat)
    requires Kept(m, blocks, claims) && buf in claims
    requires SameOutside(m, m', buf, buf + claims[buf].size)
    ensures Kept(m', blocks, claims)
  {
    forall b | b in claims
      ensures Served(m', blocks, b, claims[b])
    {
      assert b != buf ==> Apart(claims[b], claims[buf]);
      ServedStill(m, m', blocks, b, claims[b], buf, buf + claims[buf].size);
    }
  }

  /** Serving another claim from a block not in use leaves the others served and apart from it. */
  lemma OtherStillServed(m: seq<byte>, m': seq<byte>, blocks: map<nat, nat>, b: nat, l: Claim, buf: nat, k: Claim)
    requires Served(m, blocks, b, l) && Available(m, blocks, k.raw, TotalSize(k.alignment, k.size))
    requires Fits(k.raw, buf, k.alignment, k.size) && SameOutside(m, m', buf - WORD, buf)
    ensures k.raw !in blocks ==> Served(m', blocks[k.raw := TotalSize(k.alignment, k.size)], b, l)
    ensures Apart(l, k) && b != buf
  {
    hide LoadWord, SameOutside, TotalSize;
    assert l.raw + blocks[l.raw] <= k.raw || k.End() <= l.raw;
    assert l.raw <= b && b <= l.End();
    ServedStill(m, m', blocks, b, l, buf - WORD, buf);
  }

  lemma RawsOfMore(claims: map<nat, Claim>, buf: nat, k: Claim)
    requires buf !in claims
    ensures Raws(claims[buf := k]) == Raws(claims) + {k.raw}
  {
    var more := claims[buf := k];
    forall b | b in claims
      ensures claims[b].raw in Raws(more)
    {
      assert b in more && more[b] == claims[b];
    }
    assert buf in more;
  }

  lemma RawsOfFewer(claims: map<nat, Claim>, buf: nat)
    requires buf in claims && forall b :: b in claims && b != buf ==> claims[b].raw != claims[buf].raw
    ensures Raws(claims - {buf}) == Raws(claims) - {claims[buf].raw}
  {
    var fewer := claims - {buf};
    forall b | b in claims && b != buf
      ensures claims[b].raw in Raws(fewer)
    {
      assert b in fewer && fewer[b] == claims[b];
    }
  }

  lemma UnusedStart(m: seq<byte>, blocks: map<nat, nat>, claims: map<nat, Claim>, raw: nat, length: nat)
    requires Kept(m, blocks, claims) && Available(m, blocks, raw, length) && length > 0
    ensures raw !in blocks
  {
    forall r | r in blocks
      ensures blocks[r] > 0
    {
      var b :| b in claims && claims[b].raw == r;
      assert Served(m, blocks, b, claims[b]);
      hide LoadWord, TotalSize;
    }
  }

  /** The claim `k` served at `buf` from a block that was not in use. */
  lemma AllocKeeps(m: seq<byte>, m': seq<byte>, blocks: map<nat, nat>, claims: map<nat, Claim>, buf: nat, k: Claim)
    requires Kept(m, blocks, claims) && Available(m, blocks, k.raw, TotalSize(k.alignment, k.size))
    requires Fits(k.raw, buf, k.alignment, k.size) && SameOutside(m, m', buf - WORD, buf)
    requires Served(m', blocks[k.raw := TotalSize(k.alignment, k.size)], buf, k)
    ensures k.raw !in blocks && buf !in claims
    ensures Kept(m', blocks[k.raw := TotalSize(k.alignment, k.size)], claims[buf := k])
  {
    UnusedStart(m, blocks, claims, k.raw, TotalSize(k.alignment, k.size));
    OthersStillServed(m, m', blocks, claims, buf, k);
    hide Served, Available, SameOutside, Fits, TotalSize, Raws, Apart, AllApart;
    AllApartWith(claims, buf, k);
    RawsOfMore(claims, buf, k);
    ServedToo(m', blocks[k.raw := TotalSize(k.alignment, k.size)], claims, buf, k);
    hide AllServed;
  }

  lemma ServedToo(m: seq<byte>, blocks: map<nat, nat>, claims: map<nat, Claim>, buf: nat, k: Claim)
    requires AllServed(m, blocks, claims) && Served(m, blocks, buf, k)
    ensures AllServed(m, blocks, claims[buf := k])
  {
    hide Served;
  }

  lemma OthersStillServed(m: seq<byte>, m': seq<byte>, blocks: map<nat, nat>, claims: map<nat, Claim>,
                          buf: nat, k: Claim)
    requires AllServed(m, blocks, claims) && Available(m, blocks, k.raw, TotalSize(k.alignment, k.size))
    requires Fits(k.raw, buf, k.alignment, k.size) && SameOutside(m, m', buf - WORD, buf) && k.raw !in blocks
    ensures AllServed(m', blocks[k.raw := TotalSize(k.alignment, k.size)], claims)
    ensures buf !in claims && forall b :: b in claims ==> Apart(claims[b], k)
  {
    hide Served, Available, SameOutside, Fits, TotalSize, Apart;
    forall b | b in claims
      ensures Apart(claims[b], k) && b != buf
      ensures Served(m', blocks[k.raw := TotalSize(k.alignment, k.size)], b, claims[b])
    {
      OtherStillServed(m, m', blocks, b, claims[b], buf, k);
    }
  }

  lemma AllApartWith(claims: map<nat, Claim>, buf: nat, k: Claim)
    requires AllApart(claims) && buf !in claims && forall b :: b in claims ==> Apart(claims[b], k)
    ensures AllApart(claims[buf := k])
  {
    forall b | b in claims
      ensures Apart(k, claims[b])
    {
      assert Apart(claims[b], k);
    }
    hide Apart;
  }

  lemma FreeKeeps(m: seq<byte>, blocks: map<nat, nat>, claims: map<nat, Claim>, buf: nat)
    requires Kept(m, blocks, claims) && buf in claims
    ensures buf >= WORD && LoadWord(m, buf - WORD) == claims[buf].raw
    ensures claims[buf].raw in blocks && Kept(m, blocks - {claims[buf].raw}, claims - {buf})
  {
    assert Served(m, blocks, buf, claims[buf]);
    WithoutBlock(m, blocks, claims, buf);
    hide Served, LoadWord, AllServed;
    FewerApart(claims, buf);
    hide AllApart;
    RawsOfFewer(claims, buf);
    hide Raws;
  }

  /** The other claims are not served from the block of `buf`. */
  lemma WithoutBlock(m: seq<byte>, blocks: map<nat, nat>, claims: map<nat, Claim>, buf: nat)
    requires AllServed(m, blocks, claims) && AllApart(claims) && buf in claims
    ensures AllServed(m, blocks - {claims[buf].raw}, claims - {buf})
    ensures forall b :: b in claims && b != buf ==> claims[b].raw != claims[buf].raw
  {
    hide LoadWord, TotalSize, Fits;
    forall b | b in claims && b != buf
      ensures claims[b].raw != claims[buf].raw
    {
      assert Apart(claims[b], claims[buf]);
      ApartStarts(m, blocks, b, claims[b], buf, claims[buf]);
    }
    hide Apart;
  }

  lemma FewerApart(claims: map<nat, Claim>, buf: nat)
    requires AllApart(claims)
    ensures AllApart(claims - {buf})
  {
    hide Apart;
  }

  lemma StoreKeeps(m: seq<byte>, blocks: map<nat, nat>, claims: map<nat, Claim>, buf: nat, at: nat, b: seq<byte>)
    requires Kept(m, blocks, claims) && buf in claims && at + |b| <= claims[buf].size
    ensures buf + at + |b| <= |m| && Kept(Store(m, buf + at, b), blocks, claims)
  {
    hide LoadWord, TotalSize;
    assert Served(m, blocks, buf, claims[buf]);
    hide Kept;
    WriteKeeps(m, Store(m, buf + at, b), blocks, claims, buf);
  }

  ghost predicate Stored(m: seq<byte>, m': seq<byte>, p: nat, b: seq<byte>) {
    p + |b| <= |m| && m' == Store(m, p, b)
  }

  class Heap {
    const memory: array<byte>
    /** The blocks of `malloc` not yet given to `free`, by address. */
    var blocks: map<nat, nat>
    /** The aligned allocations in use, by payload. */
    ghost var claims: map<nat, Claim>

    ghost predicate Valid()
      reads this, memory
    {
      memory.Length < TWO_TO_THE_64 && Kept(memory[..], blocks, claims)
    }

    constructor (capacity: nat)
      requires capacity < TWO_TO_THE_64
      ensures Valid() && fresh(memory) && memory.Length == capacity && claims == map[]
    {
      memory := new byte[capacity];
      blocks, claims := map[], map[];
    }

    /** `raw` is what `malloc` returns. */
    method AlignedAlloc(alignment: nat, size: nat, raw: nat) returns (buf: nat)
      requires Valid() && PowerOfTwo(alignment) && size + alignment - 1 + WORD < TWO_TO_THE_64
      requires Available(memory[..], blocks, raw, TotalSize(alignment, size))
      modifies this, memory
      ensures Valid() && buf !in old(claims) && claims == old(claims)[buf := Claim(raw, alignment, size)]
      ensures raw !in old(blocks) && blocks == old(blocks)[raw := TotalSize(alignment, size)]
      ensures buf % alignment == 0 && buf % WORD == 0 && Fits(raw, buf, alignment, size)
      ensures SameOutside(old(memory[..]), memory[..], buf - WORD, buf)
    {
      ghost var m := memory[..];
      AlignedPayload(raw, alignment, size);
      var total := TotalSize(alignment, size);
      var a := alignment;
      if a < WORD {
        a := WORD;
      }
      buf := Buffer(raw, a);
      StoreBytes(memory, buf - WORD, Digits(raw, WORD));
      LoadOfStore(m, buf - WORD, raw);
      AllocKeeps(m, memory[..], blocks, claims, buf, Claim(raw, alignment, size));
      blocks := blocks[raw := total];
      claims := claims[buf := Claim(raw, alignment, size)];
    }

    /** The owner of an allocation may write all of its payload. */
    method WritePayload(buf: nat, at: nat, bytes: seq<byte>)
      requires Valid() && buf in claims && at + |bytes| <= claims[buf].size
      modifies memory
      ensures Valid() && Stored(old(memory[..]), memory[..], buf + at, bytes)
    {
      hide Kept, Store;
      StoreKeeps(memory[..], blocks, claims, buf, at, bytes);
      StoreBytes(memory, buf + at, bytes);
    }

    /** Exactly the block of the allocation goes back, whatever was written to the payloads in between. */
    method AlignedFree(p: nat)
      requires Valid() && (p != 0 ==> p in claims)
      modifies `blocks, `claims
      ensures Valid() && claims == old(claims) - {p}
      ensures blocks == if p == 0 then old(blocks) else old(blocks) - {old(claims)[p].raw}
      ensures p != 0 ==> old(claims)[p].raw in old(blocks)
    {
      if p == 0 {
        return;
      }
      FreeKeeps(memory[..], blocks, claims, p);
      var raw := LoadWord(memory[..], p - WORD);
      blocks := blocks - {raw};
      claims := claims - {p};
    }
  }
}
