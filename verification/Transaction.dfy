/** One HTTP transaction of the server: the callback of a connection, from the request to the drop. */
module Transaction {
  import opened Wrappers
  import opened Memory

  /** A heap address; 0 is null. */
  type Pointer = nat

  /** The per-session data of the server. */
  datatype Pss = Pss(data: Pointer, dataLen: nat, outData: Pointer, outLen: int, i: int)

  const ZEROED := Pss(0, 0, 0, 0, 0)

  /** One successful `lws_write`: the bytes and whether they were sent as the final part. The library promises to
      send what the connection does not take at once. */
  datatype Chunk = Chunk(payload: bytes, final: bool)

  /** The session with its heap, and what the outside world saw of it. */
  datatype Conn = Conn(
    pss: Pss,
    /** The allocated blocks. */
    live: map<Pointer, bytes>,
    /** The next address the allocator hands out. */
    next: Pointer,
    /** The blocks freed, in order. */
    freed: seq<Pointer>,
    /** The bodies the request handler was called with. */
    seen: seq<bytes>,
    /** What went out. */
    written: seq<Chunk>,
    /** Whether a writeable callback was asked for and has not come yet. */
    asked: bool,
    /** How often the transaction was declared completed. */
    completed: nat)

  /** The callback reasons, with what the library and the handler contribute. */
  datatype Event =
    | Http(isApi: bool, isPost: bool, headersFail: bool)
    | Body(chunk: bytes)
    | Completion(reply: Option<bytes>)
    /** What `lws_write` will return: the number of bytes sent, or -1 if it failed. */
    | Writeable(writeResult: int)
    | Drop

  /** A callback returns, or does what C leaves undefined: a double free, a use after free, an access out of bounds. */
  datatype Outcome = Returns(conn: Conn, rc: int) | Undefined

  /** The `i` of a session is a 32-bit `int`. */
  const INT_MAX := 0x7FFF_FFFF

  /** The body as the handler is given it: a string, its last byte overwritten with the terminating zero. */
  function ZeroLast(b: bytes): (r: bytes)
    requires b != []
    ensures |r| == |b| && r[|b| - 1] == 0 && r[..|b| - 1] == b[..|b| - 1]
  {
    b[..|b| - 1] + [0]
  }

  /** `free`: null is ignored. */
  function Free(c: Conn, p: Pointer): Option<Conn> {
    if p == 0 then Some(c)
    else if p in c.live then Some(c.(live := c.live - {p}, freed := c.freed + [p]))
    else None
  }

  /** What a callback does to the session; `size` is `end - p`, the room for a chunk. */
  function Step(c: Conn, e: Event, size: nat): Outcome {
    match e
    case Http(isApi, isPost, headersFail) =>
      // The final `memset` clears the local pointer, not the session.
      if !isApi || !isPost then Returns(c, -1) else if headersFail then Returns(c, 1) else Returns(c, 0)
    case Body(chunk) => StepBody(c, chunk)
    case Completion(reply) => StepCompletion(c, reply)
    case Writeable(w) => StepWriteable(c, w, size)
    case Drop => StepDrop(c)
  }

  function StepBody(c: Conn, chunk: bytes): Outcome {
    var pss := c.pss;
    if pss.data == 0 then
      Returns(c.(pss := pss.(data := c.next, dataLen := |chunk|),
                 live := c.live[c.next := chunk],
                 next := c.next + 1), 0)
    else if pss.data !in c.live || |c.live[pss.data]| < pss.dataLen then Undefined
    else
      var grown := c.live[pss.data][..pss.dataLen] + chunk;
      Returns(c.(pss := pss.(dataLen := pss.dataLen + |chunk|), live := c.live[pss.data := grown]), 0)
  }

  function StepCompletion(c: Conn, reply: Option<bytes>): Outcome {
    var pss := c.pss;
    if pss.data == 0 || pss.data !in c.live || pss.dataLen == 0 || |c.live[pss.data]| < pss.dataLen then Undefined
    else
      var body := ZeroLast(c.live[pss.data][..pss.dataLen]);
      var handled := if reply.None? then c.(seen := c.seen + [body], asked := true) else c.(
        seen := c.seen + [body],
        asked := true,
        pss := pss.(outData := c.next, outLen := |reply.value|),
        live := c.live[c.next := reply.value],
        next := c.next + 1);
      var rest := Free(handled, pss.data);
      if rest.None? then Undefined else Returns(rest.value.(pss := rest.value.pss.(data := 0)), 0)
  }

  /** What the completion hands to the handler: the `n` bytes received but for the last one, and a zero. */
  ghost predicate HandlerCalled(before: seq<bytes>, after: seq<bytes>, received: bytes, n: nat) {
    && 0 < n <= |received| && |after| == |before| + 1 && after[..|before|] == before
    && var t := after[|before|];
    && |t| == n && t[n - 1] == 0 && t[..n - 1] == received[..n - 1]
  }

  lemma CompletionCallsHandler(c: Conn, reply: Option<bytes>)
    requires StepCompletion(c, reply).Returns?
    ensures c.pss.data in c.live && 0 <= c.pss.dataLen
    ensures HandlerCalled(c.seen, StepCompletion(c, reply).conn.seen, c.live[c.pss.data], c.pss.dataLen)
  {
    hide ZeroLast;
    var all, n := c.live[c.pss.data], c.pss.dataLen;
    assert all[..n][..n - 1] == all[..n - 1];
    assert StepCompletion(c, reply).conn.seen == c.seen + [ZeroLast(all[..n])];
  }

  /** Only a result of 0 is taken for a failed write. */
  function StepWriteable(c: Conn, writeResult: int, size: nat): Outcome {
    var pss := c.pss;
    if pss.outData == 0 then Returns(c.(asked := false), -1)
    else
      var offset := size * pss.i;
      var chunkSize := if pss.outLen - size < 0 then pss.outLen else size;
      var outLen := pss.outLen - chunkSize;
      var final := outLen <= 0;
      if pss.outData !in c.live || chunkSize < 0 || offset < 0 || offset + chunkSize > |c.live[pss.outData]| then
        Undefined
      else if writeResult == 0 then Returns(c.(pss := pss.(outLen := outLen), asked := false), 1)
      else if pss.i >= INT_MAX then Undefined
      else
        var chunk := Chunk(c.live[pss.outData][offset..offset + chunkSize], final);
        Returns(c.(pss := pss.(outLen := outLen, i := pss.i + 1),
                   written := c.written + Sent(chunk, writeResult),
                   asked := !final,
                   completed := c.completed + if final then 1 else 0), 0)
  }

  /** What a write of the chunk with this result sends. */
  function Sent(chunk: Chunk, writeResult: int): seq<Chunk> {
    if writeResult > 0 then [chunk] else []
  }

  function StepDrop(c: Conn): Outcome {
    var first := Free(c, c.pss.data);
    if first.None? then Undefined else
    var second := Free(first.value, c.pss.outData);
    if second.None? then Undefined
    else Returns(second.value.(pss := c.pss.(data := 0, outData := 0)), 0)
  }

  // ---------- Legal runs ----------

  /** Where a transaction stands, and what was received or is being sent. */
  datatype Phase =
    | Idle
    | Receiving(body: bytes)
    /** The results of the writes so far, none of them 0. */
    | Sending(body: bytes, reply: bytes, results: seq<int>)
    | Unanswered(body: bytes)
    /** A callback asked for the connection to be closed. */
    | Closing
    | Dropped

  /** How many chunks a reply takes. */
  function Chunks(reply: bytes, size: nat): nat
    requires size > 0
  {
    (|reply| + size - 1) / size
  }

  /** The order in which the library may call: the request, non-empty pieces of a body, its completion once
      something was received, a writeable callback only while one is asked for, and the drop at any time. */
  function Next(ph: Phase, e: Event, size: nat): Option<Phase>
    requires size > 0
  {
    match (ph, e)
    case (Dropped, _) => None
    case (_, Drop) => Some(Dropped)
    case (Idle, Http(isApi, isPost, headersFail)) =>
      Some(if isApi && isPost && !headersFail then Receiving([]) else Closing)
    case (Receiving(b), Body(chunk)) => if chunk == [] then None else Some(Receiving(b + chunk))
    case (Receiving(b), Completion(reply)) =>
      if b == [] then None
      else if reply.None? then Some(Unanswered(b))
      else if reply.value == [] || Chunks(reply.value, size) > INT_MAX then None
      else Some(Sending(b, reply.value, []))
    case (Sending(b, r, ws), Writeable(w)) =>
      if |ws| >= Chunks(r, size) then None else if w == 0 then Some(Closing) else Some(Sending(b, r, ws + [w]))
    case (Unanswered(b), Writeable(w)) => Some(Closing)
    case _ => None
  }

  /** The `k`-th chunk of a reply. */
  function ChunkOf(reply: bytes, size: nat, k: nat): Chunk
    requires size > 0 && k < Chunks(reply, size)
  {
    ChunkInside(reply, size, k);
    Chunk(reply[size * k..End(reply, size, k + 1)], k == Chunks(reply, size) - 1)
  }

  /** Where the `k`-th chunk of a reply begins, and the one before it ends. */
  function End(reply: bytes, size: nat, k: nat): (n: nat)
    ensures n <= |reply|
  {
    if size * k < |reply| then size * k else |reply|
  }

  lemma ChunkInside(reply: bytes, size: nat, k: nat)
    requires size > 0 && k < Chunks(reply, size)
    ensures size * k < |reply| && size * k < End(reply, size, k + 1)
    ensures size * (k + 1) >= |reply| <==> k == Chunks(reply, size) - 1
  {
    var n := Chunks(reply, size);
    DivisionBounds(|reply| + size - 1, size);
    if k < n - 1 {
      assert size * (k + 1) <= size * (n - 1);
    } else {
      assert k == n - 1;
    }
    assert size * k <= size * (n - 1);
    assert size * (k + 1) == size * k + size;
    assert size * n == size * (n - 1) + size;
  }

  lemma DivisionBounds(a: nat, b: nat)
    requires b > 0
    ensures b * (a / b) <= a < b * (a / b) + b
  {
  }

  // ---------- What every run keeps ----------

  /** The session memory is zeroed, and the allocator hands out addresses not in use. */
  ghost predicate Fresh(c: Conn) {
    c.pss == ZEROED && !c.asked && 0 < c.next && forall p :: p in c.live ==> 0 < p < c.next
  }

  function Count(p: Pointer, q: Pointer): nat {
    if p == q then 1 else 0
  }

  /** Of the addresses `[lo, hi)` each is either one of the two owned ones or was freed exactly once, and no
      other address was freed. */
  ghost predicate Tally(freed: seq<Pointer>, lo: Pointer, hi: Pointer, data: Pointer, outData: Pointer) {
    && (forall p :: lo <= p < hi ==> multiset(freed)[p] + Count(p, data) + Count(p, outData) == 1)
    && (forall p :: p in freed ==> lo <= p < hi)
    && (data != 0 ==> lo <= data < hi)
    && (outData != 0 ==> lo <= outData < hi)
  }

  /** The heap `live0` with the owned blocks added. */
  ghost predicate HeapKept(live0: map<Pointer, bytes>, live: map<Pointer, bytes>, data: Pointer, outData: Pointer) {
    && 0 !in live
    && (forall p :: p in live0 ==> p in live && live[p] == live0[p])
    && (forall p :: p in live ==> p in live0 || p == data || p == outData)
    && (data != 0 ==> data in live && data !in live0)
    && (outData != 0 ==> outData in live && outData !in live0)
  }

  /** Every block allocated since `c0` is owned by exactly one field of the session or was freed exactly once;
      all other blocks are as they were. */
  ghost predicate Accounted(c0: Conn, c: Conn) {
    && c0.next <= c.next
    && |c0.freed| <= |c.freed| && c.freed[..|c0.freed|] == c0.freed
    && Tally(c.freed[|c0.freed|..], c0.next, c.next, c.pss.data, c.pss.outData)
    && HeapKept(c0.live, c.live, c.pss.data, c.pss.outData)
  }

  /** The chunks of a reply whose writes, with these results, sent something. */
  function ChunksSent(reply: bytes, size: nat, results: seq<int>): seq<Chunk>
    requires size > 0 && |results| <= Chunks(reply, size)
  {
    if results == [] then []
    else
      var k := |results| - 1;
      ChunksSent(reply, size, results[..k]) + Sent(ChunkOf(reply, size, k), results[k])
  }

  /** The session in each phase of a transaction that began in `c0`. */
  ghost predicate Inv(c0: Conn, ph: Phase, c: Conn, size: nat)
    requires size > 0
  {
    var p := c0.next;
    match ph
    case Idle => c == c0
    case Receiving(b) =>
      c == if b == [] then c0 else c0.(pss := Pss(p, |b|, 0, 0, 0), live := c0.live[p := b], next := p + 1)
    case Sending(b, r, ws) =>
      && b != [] && r != [] && |ws| <= Chunks(r, size) <= INT_MAX
      && c == c0.(
           pss := Pss(0, |b|, p + 1, |r| - End(r, size, |ws|), |ws|),
           live := c0.live[p + 1 := r],
           next := p + 2,
           freed := c0.freed + [p],
           seen := c0.seen + [ZeroLast(b)],
           written := c0.written + ChunksSent(r, size, ws),
           asked := |ws| < Chunks(r, size),
           completed := c0.completed + if |ws| < Chunks(r, size) then 0 else 1)
    case Unanswered(b) =>
      && b != []
      && c == c0.(
           pss := Pss(0, |b|, 0, 0, 0),
           next := p + 1,
           freed := c0.freed + [p],
           seen := c0.seen + [ZeroLast(b)],
           asked := true)
    case Closing => Accounted(c0, c)
    case Dropped => Accounted(c0, c) && c.pss.data == 0 && c.pss.outData == 0 && c.live == c0.live
  }

  lemma PhaseIsAccounted(c0: Conn, ph: Phase, c: Conn, size: nat)
    requires size > 0 && Fresh(c0) && Inv(c0, ph, c, size)
    ensures Accounted(c0, c)
  {
    OneFreed(c0.next);
    match ph
    case Idle => assert c.freed[|c0.freed|..] == [];
    case Receiving(b) => assert c.freed[|c0.freed|..] == [];
    case Sending(b, r, ws) =>
      assert c.freed[|c0.freed|..] == [c0.next];
      assert HeapKept(c0.live, c.live, c.pss.data, c.pss.outData);
      assert c.freed[..|c0.freed|] == c0.freed;
    case Unanswered(b) =>
      assert c.freed[|c0.freed|..] == [c0.next];
      assert c.freed[..|c0.freed|] == c0.freed;
    case _ =>
  }

  /** The block of the body, freed or not yet, with that of the reply, if there is one, right behind it. */
  lemma OneFreed(p: Pointer)
    requires 0 < p
    ensures Tally([p], p, p + 1, 0, 0) && Tally([p], p, p + 2, 0, p + 1)
    ensures Tally([], p, p, 0, 0) && Tally([], p, p + 1, p, 0)
  {
    assert multiset([p]) == multiset{p};
  }

  lemma SameBlocks(c0: Conn, c: Conn, c': Conn)
    requires Accounted(c0, c) && c'.live == c.live && c'.next == c.next && c'.freed == c.freed
    requires c'.pss.data == c.pss.data && c'.pss.outData == c.pss.outData
    ensures Accounted(c0, c')
  {
  }

  lemma {:induction false} TallyFreed(freed: seq<Pointer>, lo: Pointer, hi: Pointer, data: Pointer, outData: Pointer)
    requires 0 < lo && Tally(freed, lo, hi, data, outData)
    ensures data != 0 ==> Tally(freed + [data], lo, hi, 0, outData)
    ensures outData != 0 ==> Tally(freed + [outData], lo, hi, data, 0)
    ensures data != 0 ==> data != outData
  {
    assert data != 0 ==> multiset(freed)[data] + Count(data, data) + Count(data, outData) == 1;
    assert multiset(freed + [data]) == multiset(freed) + multiset{data};
    assert multiset(freed + [outData]) == multiset(freed) + multiset{outData};
  }

  function DataFreed(c: Conn): Conn {
    if c.pss.data == 0 then c
    else c.(live := c.live - {c.pss.data}, freed := c.freed + [c.pss.data], pss := c.pss.(data := 0))
  }

  function OutDataFreed(c: Conn): Conn {
    if c.pss.outData == 0 then c
    else c.(live := c.live - {c.pss.outData}, freed := c.freed + [c.pss.outData], pss := c.pss.(outData := 0))
  }

  lemma DataFreedIsAccounted(c0: Conn, c: Conn)
    requires Fresh(c0) && Accounted(c0, c)
    ensures Accounted(c0, DataFreed(c)) && (c.pss.data != 0 ==> c.pss.data in c.live && c.pss.data != c.pss.outData)
  {
    hide Tally;
    var tail := c.freed[|c0.freed|..];
    TallyFreed(tail, c0.next, c.next, c.pss.data, c.pss.outData);
    assert c.pss.data != 0 ==> DataFreed(c).freed[|c0.freed|..] == tail + [c.pss.data];
  }

  lemma OutDataFreedIsAccounted(c0: Conn, c: Conn)
    requires Fresh(c0) && Accounted(c0, c) && c.pss.data == 0
    ensures Accounted(c0, OutDataFreed(c)) && OutDataFreed(c).live == c0.live
    ensures c.pss.outData != 0 ==> c.pss.outData in c.live
  {
    hide Tally;
    var tail := c.freed[|c0.freed|..];
    TallyFreed(tail, c0.next, c.next, c.pss.data, c.pss.outData);
    assert c.pss.outData != 0 ==> OutDataFreed(c).freed[|c0.freed|..] == tail + [c.pss.outData];
  }

  /** The drop frees what the session still owns, whenever it comes. */
  lemma DropKeepsInv(c0: Conn, c: Conn, size: nat)
    requires size > 0 && Fresh(c0) && Accounted(c0, c)
    ensures Step(c, Drop, size).Returns? && Inv(c0, Dropped, Step(c, Drop, size).conn, size)
  {
    DataFreedIsAccounted(c0, c);
    OutDataFreedIsAccounted(c0, DataFreed(c));
    hide Accounted;
    assert StepDrop(c) == Returns(OutDataFreed(DataFreed(c)), 0);
  }

  lemma BodyKeepsInv(c0: Conn, b: bytes, c: Conn, chunk: bytes, size: nat)
    requires size > 0 && Fresh(c0) && Inv(c0, Receiving(b), c, size) && chunk != []
    ensures Step(c, Body(chunk), size).Returns? && Inv(c0, Receiving(b + chunk), Step(c, Body(chunk), size).conn, size)
  {
    if b == [] {
      assert b + chunk == chunk;
    } else {
      assert c.live[c0.next][..|b|] == b;
      assert c.live[c0.next := b + chunk] == c0.live[c0.next := b + chunk];
    }
  }

  lemma CompletionKeepsInv(c0: Conn, b: bytes, c: Conn, reply: Option<bytes>, size: nat)
    requires size > 0 && Fresh(c0) && Inv(c0, Receiving(b), c, size) && b != []
    requires reply.Some? ==> reply.value != [] && Chunks(reply.value, size) <= INT_MAX
    ensures Step(c, Completion(reply), size).Returns?
    ensures var ph := if reply.None? then Unanswered(b) else Sending(b, reply.value, []);
      Inv(c0, ph, Step(c, Completion(reply), size).conn, size)
  {
    var p := c0.next;
    assert c.live[p][..|b|] == b;
    if reply.None? {
      assert c.live - {p} == c0.live;
    } else {
      assert c.live[p + 1 := reply.value] - {p} == c0.live[p + 1 := reply.value];
      assert c0.written + [] == c0.written;
      RepliesTakeChunks(reply.value, size);
    }
  }

  lemma RepliesTakeChunks(reply: bytes, size: nat)
    requires size > 0 && reply != []
    ensures Chunks(reply, size) > 0
  {
    DivisionBounds(|reply| + size - 1, size);
  }

  /** The completion of a request is harmless exactly if a body was received: else there is no last byte to zero. */
  lemma CompletionNeedsBody(c0: Conn, b: bytes, c: Conn, reply: Option<bytes>, size: nat)
    requires size > 0 && Fresh(c0) && Inv(c0, Receiving(b), c, size)
    ensures Step(c, Completion(reply), size).Returns? <==> b != []
  {
    if b != [] {
      assert c.live[c0.next][..|b|] == b;
    }
  }

  /** The session while the reply `r` is being sent, apart from what went out. */
  ghost predicate AtChunk(c: Conn, r: bytes, k: nat, size: nat)
    requires size > 0
  {
    && k < Chunks(r, size) <= INT_MAX
    && c.pss.outData != 0 && c.pss.outData in c.live && c.live[c.pss.outData] == r
    && c.pss.outLen == |r| - End(r, size, k) && c.pss.i == k
  }

  /** Whatever a write returns, the next chunk is taken from inside the reply; only a positive result sends it. */
  lemma NextWrite(c: Conn, r: bytes, k: nat, w: int, size: nat)
    requires size > 0 && AtChunk(c, r, k, size)
    ensures var pss := c.pss.(outLen := |r| - End(r, size, k + 1));
      Step(c, Writeable(w), size) ==
        if w == 0 then Returns(c.(pss := pss, asked := false), 1)
        else Returns(c.(pss := pss.(i := k + 1),
                        written := c.written + Sent(ChunkOf(r, size, k), w),
                        asked := k + 1 < Chunks(r, size),
                        completed := c.completed + if k + 1 < Chunks(r, size) then 0 else 1), 0)
  {
    ChunkInside(r, size, k);
    hide Chunks;
    assert size * (k + 1) == size * k + size;
  }

  lemma WriteKeepsInv(c0: Conn, b: bytes, r: bytes, ws: seq<int>, c: Conn, w: int, size: nat)
    requires size > 0 && Fresh(c0) && Inv(c0, Sending(b, r, ws), c, size) && |ws| < Chunks(r, size)
    ensures Step(c, Writeable(w), size).Returns?
    ensures Inv(c0, if w == 0 then Closing else Sending(b, r, ws + [w]), Step(c, Writeable(w), size).conn, size)
  {
    IsAtChunk(c0, b, r, ws, c, size);
    NextWrite(c, r, |ws|, w, size);
    if w == 0 {
      PhaseIsAccounted(c0, Sending(b, r, ws), c, size);
      hide Inv, Step, Accounted;
      SameBlocks(c0, c, Step(c, Writeable(w), size).conn);
      ClosingInv(c0, Step(c, Writeable(w), size).conn, size);
    } else {
      hide Inv, Step, AtChunk;
      WrittenKeepsInv(c0, b, r, ws, c, w, size);
    }
  }

  lemma IsAtChunk(c0: Conn, b: bytes, r: bytes, ws: seq<int>, c: Conn, size: nat)
    requires size > 0 && Inv(c0, Sending(b, r, ws), c, size) && |ws| < Chunks(r, size)
    ensures AtChunk(c, r, |ws|, size)
  {
  }

  lemma WrittenKeepsInv(c0: Conn, b: bytes, r: bytes, ws: seq<int>, c: Conn, w: int, size: nat)
    requires size > 0 && Inv(c0, Sending(b, r, ws), c, size) && |ws| < Chunks(r, size)
    ensures var k := |ws|;
      Inv(c0, Sending(b, r, ws + [w]),
          c.(pss := c.pss.(outLen := |r| - End(r, size, k + 1), i := k + 1),
             written := c.written + Sent(ChunkOf(r, size, k), w),
             asked := k + 1 < Chunks(r, size),
             completed := c.completed + if k + 1 < Chunks(r, size) then 0 else 1), size)
  {
    assert (ws + [w])[..|ws|] == ws;
    assert c.written + Sent(ChunkOf(r, size, |ws|), w) == c0.written + ChunksSent(r, size, ws + [w]);
  }

  lemma ClosingInv(c0: Conn, c: Conn, size: nat)
    requires size > 0 && Accounted(c0, c)
    ensures Inv(c0, Closing, c, size)
  {
  }

  /** Until a callback closes the connection, a writeable callback may come exactly if one was asked for. */
  lemma WriteableWhenAsked(c0: Conn, ph: Phase, c: Conn, w: int, size: nat)
    requires size > 0 && Fresh(c0) && Inv(c0, ph, c, size) && !ph.Closing? && !ph.Dropped?
    ensures Next(ph, Writeable(w), size).Some? <==> c.asked
  {
  }

  /** One legal callback neither does anything undefined nor leaves its phase. */
  lemma StepKeepsInv(c0: Conn, ph: Phase, c: Conn, e: Event, size: nat)
    requires size > 0 && Fresh(c0) && Inv(c0, ph, c, size) && Next(ph, e, size).Some?
    ensures Step(c, e, size).Returns? && Inv(c0, Next(ph, e, size).value, Step(c, e, size).conn, size)
  {
    PhaseIsAccounted(c0, ph, c, size);
    match e
    case Drop => DropKeepsInv(c0, c, size);
    case Body(chunk) => BodyKeepsInv(c0, ph.body, c, chunk, size);
    case Completion(reply) => CompletionKeepsInv(c0, ph.body, c, reply, size);
    case Writeable(w) => if ph.Sending? { WriteKeepsInv(c0, ph.body, ph.reply, ph.results, c, w, size); }
    case Http(_, _, _) =>
  }

  /** A callback of a legal run asks for the connection to be closed, by a result other than 0, exactly if the run then
      waits for the drop; a request is turned away exactly if it is not a POST to the API with readable headers. */
  lemma ClosingIsAskedFor(c0: Conn, ph: Phase, c: Conn, e: Event, size: nat)
    requires size > 0 && Fresh(c0) && Inv(c0, ph, c, size) && Next(ph, e, size).Some? && !e.Drop?
    ensures Step(c, e, size).Returns?
    ensures Step(c, e, size).rc != 0 <==> Next(ph, e, size) == Some(Closing)
    ensures e.Http? ==>
      && Step(c, e, size).conn == c
      && (Step(c, e, size).rc == 0 <==> e.isApi && e.isPost && !e.headersFail)
  {
    StepKeepsInv(c0, ph, c, e, size);
    match e
    case Writeable(w) =>
      if ph.Sending? {
        IsAtChunk(c0, ph.body, ph.reply, ph.results, c, size);
        NextWrite(c, ph.reply, |ph.results|, w, size);
      }
    case _ =>
  }

  // ---------- Runs ----------

  function Run(c: Conn, events: seq<Event>, size: nat): Outcome {
    if events == [] then Returns(c, 0)
    else
      var before := Run(c, events[..|events| - 1], size);
      if before.Undefined? then Undefined else Step(before.conn, events[|events| - 1], size)
  }

  /** The phase a run leads to from `ph`, if it is legal. */
  function PhaseAfter(ph: Phase, events: seq<Event>, size: nat): Option<Phase>
    requires size > 0
  {
    if events == [] then Some(ph)
    else
      var before := PhaseAfter(ph, events[..|events| - 1], size);
      if before.None? then None else Next(before.value, events[|events| - 1], size)
  }

  /** No legal run from a zeroed session reads or frees a freed block, or leaves a block; the handler sees the
      concatenated body with its last byte zeroed however it was split, and what is sent are the chunks of the reply
      whose writes succeeded. */
  lemma {:induction false} RunKeepsInv(c0: Conn, events: seq<Event>, size: nat)
    requires size > 0 && Fresh(c0) && PhaseAfter(Idle, events, size).Some?
    ensures Run(c0, events, size).Returns?
    ensures Inv(c0, PhaseAfter(Idle, events, size).value, Run(c0, events, size).conn, size)
  {
    if events != [] {
      var before := events[..|events| - 1];
      RunKeepsInv(c0, before, size);
      StepKeepsInv(c0, PhaseAfter(Idle, before, size).value, Run(c0, before, size).conn, events[|events| - 1], size);
    }
  }

  // ---------- What the handler sees ----------

  /** The pieces of the body that came in, one behind the other. */
  function Received(events: seq<Event>): bytes {
    if events == [] then []
    else
      var e := events[|events| - 1];
      Received(events[..|events| - 1]) + if e.Body? then e.chunk else []
  }

  /** The body in the phase of a run is what came in, and the reply being sent is the one the handler left. */
  lemma {:induction false} PhaseIsReceived(events: seq<Event>, size: nat)
    requires size > 0 && PhaseAfter(Idle, events, size).Some?
    ensures var ph := PhaseAfter(Idle, events, size).value;
      && (ph.Idle? ==> Received(events) == [])
      && (ph.Receiving? || ph.Sending? || ph.Unanswered? ==> Received(events) == ph.body)
      && (ph.Sending? ==> Completion(Some(ph.reply)) in events)
  {
    hide Chunks;
    if events != [] {
      var n := |events| - 1;
      PhaseIsReceived(events[..n], size);
      assert events == events[..n] + [events[n]];
      assert Received(events[..n]) + [] == Received(events[..n]);
    }
  }

  /** The handler is called once, with all that was received but for the last byte, and a zero in its place. */
  lemma HandlerSeesBody(c0: Conn, events: seq<Event>, size: nat)
    requires size > 0 && Fresh(c0) && PhaseAfter(Idle, events, size).Some?
    requires var ph := PhaseAfter(Idle, events, size).value; ph.Sending? || ph.Unanswered?
    ensures Run(c0, events, size).Returns?
    ensures HandlerCalled(c0.seen, Run(c0, events, size).conn.seen, Received(events), |Received(events)|)
  {
    RunKeepsInv(c0, events, size);
    PhaseIsReceived(events, size);
    hide Run, PhaseAfter, Received;
  }

  /** After the drop, every block the transaction allocated was freed exactly once. */
  lemma DroppedFreesOnce(c0: Conn, events: seq<Event>, size: nat, p: Pointer)
    requires size > 0 && Fresh(c0) && PhaseAfter(Idle, events, size) == Some(Dropped)
    ensures Run(c0, events, size).Returns?
    ensures var c := Run(c0, events, size).conn;
      && c.live == c0.live && |c0.freed| <= |c.freed|
      && (c0.next <= p < c.next ==> multiset(c.freed[|c0.freed|..])[p] == 1)
      && (p in c.freed[|c0.freed|..] ==> c0.next <= p < c.next)
  {
    RunKeepsInv(c0, events, size);
  }

  // ---------- The response ----------

  function Payloads(chunks: seq<Chunk>): bytes {
    if chunks == [] then [] else Payloads(chunks[..|chunks| - 1]) + chunks[|chunks| - 1].payload
  }

  ghost predicate AllPositive(results: seq<int>) {
    forall k :: 0 <= k < |results| ==> results[k] > 0
  }

  /** The chunks sent are fewer than the writes exactly if a write failed; else all of them are, in order. */
  lemma {:induction false} ChunksInOrder(reply: bytes, size: nat, results: seq<int>)
    requires size > 0 && |results| <= Chunks(reply, size)
    ensures |ChunksSent(reply, size, results)| <= |results|
    ensures |ChunksSent(reply, size, results)| == |results| <==> AllPositive(results)
    ensures AllPositive(results) ==>
      forall j :: 0 <= j < |results| ==> ChunksSent(reply, size, results)[j] == ChunkOf(reply, size, j)
  {
    hide Chunks, ChunkOf;
    if results != [] {
      var k := |results| - 1;
      ChunksInOrder(reply, size, results[..k]);
      assert forall j :: 0 <= j < k ==> results[..k][j] == results[j];
    }
  }

  lemma {:induction false} PayloadsArePrefix(reply: bytes, size: nat, results: seq<int>)
    requires size > 0 && |results| <= Chunks(reply, size) && AllPositive(results)
    ensures Payloads(ChunksSent(reply, size, results)) == reply[..End(reply, size, |results|)]
  {
    hide Chunks, ChunkOf, End;
    if results != [] {
      var k := |results| - 1;
      PayloadsArePrefix(reply, size, results[..k]);
      NextChunk(reply, size, k);
      var before := ChunksSent(reply, size, results[..k]);
      assert (before + [ChunkOf(reply, size, k)])[..|before|] == before;
    } else {
      NothingSent(reply, size);
    }
  }

  lemma NothingSent(reply: bytes, size: nat)
    ensures End(reply, size, 0) == 0
  {
  }

  lemma NextChunk(reply: bytes, size: nat, k: nat)
    requires size > 0 && k < Chunks(reply, size)
    ensures reply[..End(reply, size, k)] + ChunkOf(reply, size, k).payload == reply[..End(reply, size, k + 1)]
  {
    ChunkInside(reply, size, k);
  }

  lemma AllSent(reply: bytes, size: nat)
    requires size > 0
    ensures End(reply, size, Chunks(reply, size)) == |reply|
  {
    DivisionBounds(|reply| + size - 1, size);
  }

  /** What the phases up to the last chunk know of the writes. */
  function ResultsOf(ph: Phase): seq<int> {
    if ph.Sending? then ph.results else []
  }

  /** The results of a transaction that is sending are those of its writeable callbacks. */
  lemma {:induction false} ResultsAreWrites(events: seq<Event>, size: nat, w: int)
    requires size > 0
    requires var ph := PhaseAfter(Idle, events, size);
      ph.Some? && (ph.value.Idle? || ph.value.Receiving? || ph.value.Sending?)
    ensures Writeable(w) in events <==> w in ResultsOf(PhaseAfter(Idle, events, size).value)
  {
    hide Chunks;
    if events != [] {
      var n := |events| - 1;
      assert events == events[..n] + [events[n]];
      ResultsAreWrites(events[..n], size, w);
    }
  }

  /** Once every chunk was handed to `lws_write`, the transaction is declared completed, exactly once. What went out
      is the reply, each chunk but the last full and exactly the last one final, if and only if every write succeeded:
      a result of -1 goes unnoticed. */
  lemma ResponseIsComplete(c0: Conn, events: seq<Event>, size: nat, body: bytes, reply: bytes, results: seq<int>)
    requires size > 0 && Fresh(c0) && |results| == Chunks(reply, size)
    requires PhaseAfter(Idle, events, size) == Some(Sending(body, reply, results))
    ensures Run(c0, events, size).Returns?
    ensures var c := Run(c0, events, size).conn;
      && c.completed == c0.completed + 1
      && |c0.written| <= |c.written|
      && (IsResponse(c.written[|c0.written|..], reply, size) <==> forall w :: Writeable(w) in events ==> w > 0)
  {
    RunKeepsInv(c0, events, size);
    var c := Run(c0, events, size).conn;
    assert c.written[|c0.written|..] == ChunksSent(reply, size, results);
    forall w
      ensures Writeable(w) in events <==> w in results
    {
      ResultsAreWrites(events, size, w);
    }
    hide Run, PhaseAfter, Inv, Chunks, ChunksSent;
    SentIsResponse(reply, size, results);
    assert forall k :: 0 <= k < |results| ==> results[k] in results;
  }

  lemma SentIsResponse(reply: bytes, size: nat, results: seq<int>)
    requires size > 0 && |results| == Chunks(reply, size)
    ensures IsResponse(ChunksSent(reply, size, results), reply, size) <==> AllPositive(results)
  {
    hide Chunks, ChunksSent, End;
    ChunksInOrder(reply, size, results);
    if AllPositive(results) {
      PayloadsArePrefix(reply, size, results);
      AllSent(reply, size);
      assert reply[..|reply|] == reply;
      forall j | 0 <= j < |results|
        ensures IsChunkOf(ChunksSent(reply, size, results)[j], j, |results|, size)
      {
        ChunkSize(reply, size, j);
      }
    }
  }

  lemma OneChunk(reply: bytes, size: nat)
    requires 0 < |reply| <= size
    ensures Chunks(reply, size) == 1
  {
    RepliesTakeChunks(reply, size);
    if Chunks(reply, size) > 1 {
      ChunkInside(reply, size, 1);
      assert false;
    }
  }

  lemma PhasesOfReplyLost(size: nat)
    requires size > 0
    ensures var events := [Http(true, true, false), Body([1]), Completion(Some([7])), Writeable(-1)];
      PhaseAfter(Idle, events, size) == Some(Sending([1], [7], [-1]))
  {
    OneChunk([7], size);
    hide Chunks;
    var e0, e1, e2, e3 := Http(true, true, false), Body([1]), Completion(Some([7])), Writeable(-1);
    assert [e0][..0] == [] && [e0, e1][..1] == [e0] && [e0, e1, e2][..2] == [e0, e1]
        && [e0, e1, e2, e3][..3] == [e0, e1, e2];
    assert PhaseAfter(Idle, [e0], size) == Some(Receiving([]));
    assert [] + [1] == [1];
    assert PhaseAfter(Idle, [e0, e1], size) == Some(Receiving([1]));
    assert PhaseAfter(Idle, [e0, e1, e2], size) == Some(Sending([1], [7], []));
    assert [] + [-1] == [-1];
  }

  /** A reply of one byte whose only write fails: the transaction is completed, and nothing was sent. */
  lemma ReplyLost(c0: Conn, size: nat)
    requires size > 0 && Fresh(c0)
    ensures var events := [Http(true, true, false), Body([1]), Completion(Some([7])), Writeable(-1)];
      && PhaseAfter(Idle, events, size) == Some(Sending([1], [7], [-1])) && Chunks([7], size) == 1
      && Run(c0, events, size).Returns?
      && var c := Run(c0, events, size).conn;
      && c.completed == c0.completed + 1 && c.written == c0.written
  {
    var events := [Http(true, true, false), Body([1]), Completion(Some([7])), Writeable(-1)];
    OneChunk([7], size);
    PhasesOfReplyLost(size);
    RunKeepsInv(c0, events, size);
    assert [-1][..0] == [];
    assert ChunksSent([7], size, [-1]) == [];
    assert c0.written + [] == c0.written;
  }

  /** The `j`-th of `n` chunks: only the last is final, and only the last may be short. */
  ghost predicate IsChunkOf(chunk: Chunk, j: nat, n: nat, size: nat) {
    && chunk.final == (j == n - 1)
    && (if j < n - 1 then |chunk.payload| == size else 0 < |chunk.payload| <= size)
  }

  /** As many chunks as the reply takes, together the reply. */
  ghost predicate IsResponse(sent: seq<Chunk>, reply: bytes, size: nat)
    requires size > 0
  {
    && |sent| == Chunks(reply, size)
    && Payloads(sent) == reply
    && forall j :: 0 <= j < |sent| ==> IsChunkOf(sent[j], j, |sent|, size)
  }

  lemma ChunkSize(reply: bytes, size: nat, j: nat)
    requires size > 0 && j < Chunks(reply, size)
    ensures IsChunkOf(ChunkOf(reply, size, j), j, Chunks(reply, size), size)
  {
    ChunkInside(reply, size, j);
    assert size * (j + 1) == size * j + size;
  }

  // ---------- The counter of a session that is used again ----------

  /** `k` successful writeable callbacks. */
  function Writes(c: Conn, k: nat, size: nat): Outcome {
    if k == 0 then Returns(c, 0)
    else
      var before := Writes(c, k - 1, size);
      if before.Undefined? then Undefined else Step(before.conn, Writeable(1), size)
  }

  /** A reply is waiting to be sent; the counter is wherever an earlier transaction left it. */
  ghost predicate ReadyToSend(c: Conn, reply: bytes, size: nat)
    requires size > 0
  {
    && c.pss.outData != 0 && c.pss.outData in c.live && c.live[c.pss.outData] == reply && reply != []
    && c.pss.outLen == |reply| && 0 <= c.pss.i && c.pss.i + Chunks(reply, size) <= INT_MAX
  }

  lemma {:induction false} WritesSoFar(c: Conn, reply: bytes, k: nat, size: nat)
    requires size > 0 && ReadyToSend(c, reply, size) && k <= Chunks(reply, size)
    ensures var t := Writes(c, k, size);
      t.Returns? ==>
        t.conn.live == c.live && t.conn.pss == c.pss.(outLen := |reply| - End(reply, size, k), i := c.pss.i + k)
    ensures c.pss.i == 0 ==> Writes(c, k, size).Returns?
  {
    if k > 0 {
      WritesSoFar(c, reply, k - 1, size);
      ChunkInside(reply, size, k - 1);
      assert size * k == size * (k - 1) + size;
    }
  }

  /** The reply can be sent without reading outside its buffer exactly if the counter starts at zero. */
  lemma SendingNeedsZeroCounter(c: Conn, reply: bytes, size: nat)
    requires size > 0 && ReadyToSend(c, reply, size)
    ensures Writes(c, Chunks(reply, size), size).Returns? <==> c.pss.i == 0
  {
    var n := Chunks(reply, size);
    DivisionBounds(|reply| + size - 1, size);
    assert n > 0;
    WritesSoFar(c, reply, n, size);
    WritesSoFar(c, reply, n - 1, size);
    var before := Writes(c, n - 1, size);
    if c.pss.i > 0 && before.Returns? {
      LastWriteOutside(c, reply, size, n, before.conn);
    }
  }

  /** With a counter that started above zero, the last chunk ends behind the reply. */
  lemma LastWriteOutside(c: Conn, reply: bytes, size: nat, n: nat, t: Conn)
    requires size > 0 && ReadyToSend(c, reply, size) && n == Chunks(reply, size) > 0 && c.pss.i > 0
    requires t.live == c.live && t.pss == c.pss.(outLen := |reply| - End(reply, size, n - 1), i := c.pss.i + n - 1)
    ensures Step(t, Writeable(1), size).Undefined?
  {
    ChunkInside(reply, size, n - 1);
    var done := size * (n - 1);
    assert End(reply, size, n - 1) == done;
    assert size * t.pss.i == size * c.pss.i + done;
    assert size * c.pss.i > 0;
    assert size * (n - 1 + 1) == done + size;
  }

  /** A second transaction on session memory that is not zeroed again cannot send its reply: neither the drop nor
      the next request resets the counter. */
  lemma SecondTransactionFails(c0: Conn, events: seq<Event>, size: nat, body: bytes, reply: bytes, results: seq<int>,
                               body': bytes, reply': bytes)
    requires size > 0 && Fresh(c0) && |results| == Chunks(reply, size)
    requires PhaseAfter(Idle, events, size) == Some(Sending(body, reply, results))
    requires body' != [] && reply' != [] && Chunks(reply, size) + Chunks(reply', size) <= INT_MAX
    ensures var again := [Drop, Http(true, true, false), Body(body'), Completion(Some(reply'))];
      && Run(c0, events, size).Returns?
      && var c := Run(Run(c0, events, size).conn, again, size);
      && c.Returns? && ReadyToSend(c.conn, reply', size)
      && Writes(c.conn, Chunks(reply', size), size).Undefined?
  {
    RunKeepsInv(c0, events, size);
    var n, t := Chunks(reply, size), Run(c0, events, size).conn;
    DivisionBounds(|reply| + size - 1, size);
    assert n > 0 && t.pss.i == n;
    PhaseIsAccounted(c0, Sending(body, reply, results), t, size);
    DropKeepsInv(c0, t, size);
    var u := Step(t, Drop, size).conn;
    assert u.pss == t.pss.(outData := 0) && u.live == c0.live;
    var v := Step(u, Body(body'), size).conn;
    assert v.pss == u.pss.(data := u.next, dataLen := |body'|) && v.live == c0.live[u.next := body'];
    var w := Step(v, Completion(Some(reply')), size);
    assert v.live[u.next][..|body'|] == body';
    assert w.Returns? && w.conn.pss.i == n && w.conn.live[w.conn.pss.outData] == reply';
    SendingNeedsZeroCounter(w.conn, reply', size);
    RunFour(t, Drop, Http(true, true, false), Body(body'), Completion(Some(reply')), size);
  }

  lemma RunFour(c: Conn, e0: Event, e1: Event, e2: Event, e3: Event, size: nat)
    requires Step(c, e0, size).Returns?
    requires var c1 := Step(c, e0, size).conn; Step(c1, e1, size).Returns?
    requires var c1 := Step(c, e0, size).conn; var c2 := Step(c1, e1, size).conn; Step(c2, e2, size).Returns?
    ensures var c1 := Step(c, e0, size).conn; var c2 := Step(c1, e1, size).conn; var c3 := Step(c2, e2, size).conn;
      Run(c, [e0, e1, e2, e3], size) == Step(c3, e3, size)
  {
    hide Step;
    var es := [e0, e1, e2, e3];
    assert es[..3] == [e0, e1, e2] && es[..3][..2] == [e0, e1];
    assert [e0, e1][..1] == [e0] && [e0][..0] == [];
    assert Run(c, [e0], size) == Step(c, e0, size);
    assert Run(c, [e0, e1], size) == Step(Step(c, e0, size).conn, e1, size);
  }
}
