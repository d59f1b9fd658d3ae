/** The connection callback statement by statement, on a session whose fields and heap it updates. */
module Connections {
  import opened Wrappers
  import opened Memory
  import opened Transaction

  class Connection {
    /** The session (globals.h). */
    var data: Pointer
    var dataLen: nat
    var outData: Pointer
    var outLen: int
    var i: int
    /** The heap. */
    var live: map<Pointer, bytes>
    var next: Pointer
    var freed: seq<Pointer>
    /** What the handler was given and what was sent. */
    var seen: seq<bytes>
    var written: seq<Chunk>
    /** What was asked of the library. */
    var asked: bool
    var completed: nat

    constructor ()
      ensures Fresh(Get()) && live == map[] && freed == [] && seen == [] && written == []
      ensures completed == 0
    {
      data, dataLen, outData, outLen, i := 0, 0, 0, 0, 0;
      live, next, freed, seen, written := map[], 1, [], [], [];
      asked, completed := false, 0;
    }

    ghost function Get(): Conn
      reads this
    {
      Conn(Pss(data, dataLen, outData, outLen, i), live, next, freed, seen, written, asked, completed)
    }

    // ---------- The C library ----------

    method Allocate(content: bytes) returns (p: Pointer)
      modifies `live, `next
      ensures p == old(next) && next == p + 1 && live == old(live)[p := content]
    {
      p := next;
      live, next := live[p := content], next + 1;
    }

    /** The bytes both sizes have in common are kept; what the block holds behind them is not known. */
    method Reallocate(p: Pointer, size: nat)
      requires p in live
      modifies `live
      ensures p in live && |live[p]| == size && live == old(live)[p := live[p]]
      ensures forall k :: 0 <= k < size && k < |old(live[p])| ==> live[p][k] == old(live[p])[k]
    {
      var kept := if size < |live[p]| then size else |live[p]|;
      live := live[p := live[p][..kept] + seq(size - kept, _ => 0)];
    }

    method Memcpy(p: Pointer, at: nat, source: bytes)
      requires p in live && at + |source| <= |live[p]|
      modifies `live
      ensures live == old(live)[p := old(live[p])[..at] + source + old(live[p])[at + |source|..]]
    {
      live := live[p := live[p][..at] + source + live[p][at + |source|..]];
    }

    method Release(p: Pointer)
      requires p == 0 || p in live
      modifies `live, `freed
      ensures Free(old(Get()), p) == Some(Get())
    {
      if p != 0 {
        live, freed := live - {p}, freed + [p];
      }
    }

    // ---------- The callback ----------

    method OnBody(chunk: bytes)
      requires StepBody(Get(), chunk).Returns?
      modifies this
      ensures StepBody(old(Get()), chunk) == Returns(Get(), 0)
    {
      if data == 0 {
        var block := Allocate(seq(|chunk|, _ => 0));
        data := block;
        dataLen := |chunk|;
        Memcpy(data, 0, chunk);
        assert live[data] == chunk;
      } else {
        ghost var before := live[data];
        Reallocate(data, dataLen + |chunk|);
        Memcpy(data, dataLen, chunk);
        dataLen := dataLen + |chunk|;
        assert live[data] == before[..old(dataLen)] + chunk;
      }
    }

    /** `Process` stands for the handler: it is given the body and may leave a reply. */
    method Process(reply: Option<bytes>)
      requires data in live && dataLen <= |live[data]|
      modifies `live, `next, `seen, `outData, `outLen
      ensures seen == old(seen) + [old(live[data])[..dataLen]]
      ensures reply.None? ==>
        live == old(live) && next == old(next) && outData == old(outData) && outLen == old(outLen)
      ensures reply.Some? ==>
        && live == old(live)[old(next) := reply.value] && next == old(next) + 1
        && outData == old(next) && outLen == |reply.value|
    {
      seen := seen + [live[data][..dataLen]];
      if reply.Some? {
        var block := Allocate(reply.value);
        outData, outLen := block, |reply.value|;
      }
    }

    method TerminateBody()
      requires data in live && 0 < dataLen <= |live[data]|
      modifies `live
      ensures data in live && live == old(live)[data := live[data]] && dataLen <= |live[data]|
      ensures live[data][..dataLen] == ZeroLast(old(live[data])[..dataLen])
      ensures live[data] == old(live[data])[dataLen - 1 := 0]
    {
      Memcpy(data, dataLen - 1, [0]);
    }

    method OnCompletion(reply: Option<bytes>)
      requires StepCompletion(Get(), reply).Returns?
      modifies this
      ensures StepCompletion(old(Get()), reply) == Returns(Get(), 0)
      ensures old(data) in old(live) && HandlerCalled(old(seen), seen, old(live)[old(data)], old(dataLen))
    {
      hide ZeroLast, HandlerCalled;
      CompletionCallsHandler(Get(), reply);
      ghost var before := live;
      TerminateBody();
      OverwrittenThenFreed(before, data, live[data], next, reply);
      Process(reply);
      asked := true;
      Release(data);
      data := 0;
    }

    method OnWriteable(writeResult: int, size: nat) returns (rc: int)
      requires StepWriteable(Get(), writeResult, size).Returns?
      modifies this
      ensures StepWriteable(old(Get()), writeResult, size) == Returns(Get(), rc)
    {
      asked := false;
      if outData == 0 {
        return -1;
      }
      var chunkSize := size;
      var offset := chunkSize * i;
      if outLen - chunkSize < 0 {
        chunkSize := outLen;
      }
      outLen := outLen - chunkSize;
      var final := outLen <= 0;
      if writeResult == 0 {
        return 1;
      }
      // A negative result means that nothing was sent; the code goes on all the same.
      if writeResult > 0 {
        written := written + [Chunk(live[outData][offset..offset + chunkSize], final)];
      }
      i := i + 1;
      if final {
        completed := completed + 1;
      } else {
        asked := true;
      }
      return 0;
    }

    method OnDrop()
      requires StepDrop(Get()).Returns?
      modifies this
      ensures StepDrop(old(Get())) == Returns(Get(), 0)
    {
      Release(data);
      Release(outData);
      data := 0;
      outData := 0;
    }

    method HttpCallback(e: Event, size: nat) returns (rc: int)
      requires Step(Get(), e, size).Returns?
      modifies this
      ensures Step(old(Get()), e, size) == Returns(Get(), rc)
    {
      rc := 0;
      match e {
        case Http(isApi, isPost, headersFail) =>
          if !isApi || !isPost {
            return -1;
          }
          if headersFail {
            return 1;
          }
        case Body(chunk) => OnBody(chunk);
        case Completion(reply) => OnCompletion(reply);
        case Writeable(w) => rc := OnWriteable(w, size);
        case Drop => OnDrop();
      }
    }
  }


  /** What was written to a block before it is freed makes no difference. */
  lemma OverwrittenThenFreed(live: map<Pointer, bytes>, p: Pointer, b: bytes, q: Pointer, reply: Option<bytes>)
    ensures live[p := b] - {p} == live - {p}
    ensures reply.Some? ==> live[p := b][q := reply.value] - {p} == live[q := reply.value] - {p}
  {
  }

  /** A whole legal run on a new session: it may always go on, and ends in the state the invariant describes. */
  method Serve(events: seq<Event>, size: nat) returns (c: Connection, ghost c0: Conn)
    requires size > 0 && PhaseAfter(Idle, events, size).Some?
    ensures fresh(c) && Fresh(c0) && c0.live == map[] && c0.freed == []
    ensures c0.seen == [] && c0.written == [] && c0.completed == 0
    ensures Run(c0, events, size).Returns? && Run(c0, events, size).conn == c.Get()
    ensures Inv(c0, PhaseAfter(Idle, events, size).value, c.Get(), size)
  {
    c := new Connection();
    c0 := c.Get();
    var k := 0;
    assert events[..0] == [];
    while k < |events|
      invariant 0 <= k <= |events| && fresh(c)
      invariant Run(c0, events[..k], size).Returns? && Run(c0, events[..k], size).conn == c.Get()
    {
      LegalSoFar(events, k, size);
      RunKeepsInv(c0, events[..k], size);
      StepKeepsInv(c0, PhaseAfter(Idle, events[..k], size).value, c.Get(), events[k], size);
      assert events[..k + 1][..k] == events[..k];
      var rc := c.HttpCallback(events[k], size);
      k := k + 1;
    }
    assert events[..k] == events;
    RunKeepsInv(c0, events, size);
  }

  /** Every beginning of a legal run is legal, and its next callback is allowed. */
  lemma {:induction false} LegalSoFar(events: seq<Event>, k: nat, size: nat)
    requires size > 0 && k < |events| && PhaseAfter(Idle, events, size).Some?
    ensures PhaseAfter(Idle, events[..k], size).Some?
    ensures Next(PhaseAfter(Idle, events[..k], size).value, events[k], size).Some?
  {
    var n := |events| - 1;
    if k < n {
      LegalSoFar(events[..n], k, size);
      assert events[..n][..k] == events[..k];
    }
  }
}
