/** The FlatBuffers builder by its documented contract: emitted objects are immutable and get fresh non-zero
    references, tables and offset vectors under construction form a stack, and a refmap may be attached. */
module Builders {
  import opened Wrappers
  import opened Memory
  import opened Schema

  /** A table or offset vector under construction; `late` are the fields whose value was stored too late. */
  datatype Frame =
    | TableFrame(ty: TableType, fields: map<nat, Field>, late: Late)
    | VectorFrame(elems: seq<Address>)

  /** The pointer `table_add` returns: a field of the innermost table, good until the stack moves again. */
  datatype Slot = Null | Slot(id: nat, moved: nat)

  /** The state of a builder. */
  datatype State = State(
    /** The objects emitted so far, by reference. */
    out: Store,
    /** The last reference handed out. */
    last: nat,
    /** The open tables and vectors, innermost last. */
    frames: seq<Frame>,
    /** The attached refmap; an entry holding 0 is to a lookup the same as no entry. */
    refmap: Option<map<Address, Address>>,
    /** How many more primitives succeed: a run of the C builder first fails at some primitive, or never. */
    budget: nat,
    /** How often an add has moved the stack. */
    moved: nat,
    /** The adds that move the stack, by the number of primitives that still succeed. */
    moves: set<nat>,
    /** The byte a new field holds before a value is stored in it, by the same number; 0 where nothing is said. */
    residues: map<nat, byte>,
    /** For an emitted copy, the address of the source object it was made from. */
    origin: map<Address, Address>,
    /** For an emitted table, the fields whose value was stored too late. */
    late: map<Address, Late>)
  {
    /** References are below `last`, null is no reference, and only emitted objects have an origin. */
    ghost predicate Valid() {
      && (forall r :: r in out ==> 0 < r <= last)
      && origin.Keys <= out.Keys && late.Keys <= out.Keys
    }

    /** `flatcc_builder_refmap_find`: 0 without a refmap or an entry. */
    function Find(src: Address): Address {
      if refmap.Some? && src in refmap.value then refmap.value[src] else 0
    }

    /** The innermost open frame. */
    function Top(): Frame
      requires frames != []
    {
      frames[|frames| - 1]
    }

    function Below(): seq<Frame>
      requires frames != []
    {
      frames[..|frames| - 1]
    }
  }

  /** What a field added with `n` primitives to go holds before a value is stored in it. */
  function Residue(residues: map<nat, byte>, n: int): byte {
    if n in residues then residues[n] else 0
  }

  /** The outcome of emitting `o`: a fresh reference to it, or 0 and nothing emitted. */
  ghost predicate Emitted(s: State, t: State, o: Object, late: Late, from: Option<Address>, r: Address) {
    && t.Valid() && t.refmap == s.refmap && t.moves == s.moves && t.residues == s.residues
    && (r == 0 <==> s.budget == 0) && t.budget == (if r == 0 then 0 else s.budget - 1)
    && (r == 0 ==> t.out == s.out && t.origin == s.origin && t.late == s.late)
    && (r != 0 ==>
          && r !in s.out
          && t.out == s.out[r := o]
          && t.late == s.late[r := late]
          && t.origin == (if from.Some? then s.origin[r := from.value] else s.origin))
  }

  function OffsetVector(elemType: Option<TableType>, elems: seq<Address>): Object {
    if elemType.Some? then TableVec(elemType.value, elems) else UnionVec(elems)
  }

  class Builder {
    var out: Store
    var last: nat
    var frames: seq<Frame>
    var refmap: Option<map<Address, Address>>
    var budget: nat
    var moved: nat
    const moves: set<nat>
    const residues: map<nat, byte>
    ghost var origin: map<Address, Address>
    ghost var late: map<Address, Late>

    ghost function Get(): State
      reads this
    {
      State(out, last, frames, refmap, budget, moved, moves, residues, origin, late)
    }

    constructor (budget: nat, moves: set<nat>, residues: map<nat, byte>, withRefmap: bool)
      ensures Get() == State(map[], 0, [], if withRefmap then Some(map[]) else None,
                             budget, 0, moves, residues, map[], map[])
    {
      out, last, frames, this.budget, moved, origin, late := map[], 0, [], budget, 0, map[], map[];
      this.moves, this.residues := moves, residues;
      refmap := if withRefmap then Some(map[]) else None;
    }

    method Spend() returns (ok: bool)
      modifies this`budget
      ensures ok <==> old(budget) > 0
      ensures budget == if ok then old(budget) - 1 else old(budget)
    {
      ok := budget > 0;
      if ok { budget := budget - 1; }
    }

    /** Allocation of a new object, traced to the source object `from` it copies, if any. */
    method Emit(o: Object, ghost fieldsLate: Late, ghost from: Option<Address>) returns (r: Address)
      requires Get().Valid()
      modifies this`out, this`last, this`budget, this`origin, this`late
      ensures Emitted(old(Get()), Get(), o, fieldsLate, from, r)
    {
      var ok := Spend();
      if ok {
        last := last + 1;
        r := last;
        out := out[r := o];
        late := late[r := fieldsLate];
        if from.Some? { origin := origin[r := from.value]; }
      } else {
        r := 0;
      }
    }

    /** `flatcc_builder_create_string`. */
    method CreateString(chars: seq<byte>, ghost from: Option<Address>) returns (r: Address)
      requires Get().Valid()
      modifies this`out, this`last, this`budget, this`origin, this`late
      ensures Emitted(old(Get()), Get(), Str(chars), map[], from, r)
    {
      r := Emit(Str(chars), map[], from);
    }

    /** `flatcc_builder_create_vector` for a vector of bytes. */
    method CreateVector(data: seq<byte>, ghost from: Option<Address>) returns (r: Address)
      requires Get().Valid()
      modifies this`out, this`last, this`budget, this`origin, this`late
      ensures Emitted(old(Get()), Get(), Bytes(data), map[], from, r)
    {
      r := Emit(Bytes(data), map[], from);
    }

    /** `flatcc_builder_create_type_vector`: the types of a union vector are a vector of bytes. */
    method CreateTypeVector(types: seq<byte>, ghost from: Option<Address>) returns (r: Address)
      requires Get().Valid()
      modifies this`out, this`last, this`budget, this`origin, this`late
      ensures Emitted(old(Get()), Get(), Bytes(types), map[], from, r)
    {
      r := Emit(Bytes(types), map[], from);
    }

    /** `flatcc_builder_start_table`: 0 on success, -1 on failure. */
    method StartTable(ty: TableType) returns (rc: int)
      modifies this`frames, this`budget
      ensures rc == 0 <==> old(budget) > 0
      ensures if rc == 0 then budget == old(budget) - 1 && frames == old(frames) + [TableFrame(ty, map[], map[])]
              else budget == 0 && frames == old(frames)
    {
      var ok := Spend();
      if ok {
        frames := frames + [TableFrame(ty, map[], map[])];
        rc := 0;
      } else {
        rc := -1;
      }
    }

    /** `flatcc_builder_table_add` and `flatcc_builder_table_add_offset`: the pointer is returned for the value to be
        stored through. A field id may be added once, and must be below the count the table was started with. */
    method AddSlot(id: nat) returns (slot: Slot)
      requires frames != [] && Get().Top().TableFrame?
      requires id !in Get().Top().fields && id < |Fields(Get().Top().ty)|
      modifies this`frames, this`budget, this`moved
      ensures slot.Null? <==> old(budget) == 0
      ensures if slot.Null? then budget == 0 && frames == old(frames) && moved == old(moved) else
        && budget == old(budget) - 1 && moved == old(moved) + (if old(budget) in moves then 1 else 0)
        && slot == Slot(id, moved)
        && var top, unset := old(Get().Top()), Scalar(Residue(residues, old(budget)));
        && frames == old(Get().Below()) + [top.(fields := top.fields[id := unset])]
    {
      if budget == 0 { return Null; }
      var top := frames[|frames| - 1];
      var unset := Scalar(Residue(residues, budget));
      frames := frames[..|frames| - 1] + [top.(fields := top.fields[id := unset])];
      if budget in moves { moved := moved + 1; }
      budget := budget - 1;
      slot := Slot(id, moved);
    }

    /** A store through the pointer. If the stack has moved since, it does not reach the table. */
    method StoreThrough(slot: Slot, f: Field)
      requires slot.Slot? && frames != [] && Get().Top().TableFrame? && slot.id in Get().Top().fields
      requires Get().Top().fields[slot.id].Scalar? && 0 <= Get().Top().fields[slot.id].bits < 256
      modifies this`frames
      ensures var top := old(Get().Top());
        frames == old(Get().Below()) + [
          if slot.moved == moved then top.(fields := top.fields[slot.id := f])
          else top.(late := top.late[slot.id := top.fields[slot.id].bits])]
    {
      var top := frames[|frames| - 1];
      var rest := frames[..|frames| - 1];
      if slot.moved == moved {
        frames := rest + [top.(fields := top.fields[slot.id := f])];
      } else {
        frames := rest + [top.(late := top.late[slot.id := top.fields[slot.id].bits])];
      }
    }

    /** An add whose value is stored at once, as the scalar and reference fields do, and `table_add_copy`. */
    method TableAdd(id: nat, f: Field) returns (rc: int)
      requires frames != [] && Get().Top().TableFrame?
      requires id !in Get().Top().fields && id < |Fields(Get().Top().ty)|
      modifies this`frames, this`budget, this`moved
      ensures rc == 0 <==> old(budget) > 0
      ensures if rc == 0
        then
          && budget == old(budget) - 1
          && frames == old(Get().Below()) + [old(Get().Top()).(fields := old(Get().Top().fields)[id := f])]
        else budget == 0 && frames == old(frames)
    {
      ghost var top := Get().Top();
      var slot := AddSlot(id);
      if slot.Null? { return -1; }
      StoreThrough(slot, f);
      assert top.fields[id := Scalar(Residue(residues, old(budget)))][id := f] == top.fields[id := f];
      rc := 0;
    }

    /** The generated `X_end`: `check_required` is asserted, then `flatcc_builder_end_table`. */
    method EndTable(ghost from: Option<Address>) returns (r: Address)
      requires Get().Valid() && frames != [] && Get().Top().TableFrame?
      requires Required(Get().Top().ty) <= Get().Top().fields.Keys
      modifies this`out, this`last, this`budget, this`origin, this`late, this`frames
      ensures var top := old(Get().Top());
        Emitted(old(Get()), Get(), Table(top.ty, top.fields), top.late, from, r)
      ensures frames == if r != 0 then old(Get().Below()) else old(frames)
    {
      var top := frames[|frames| - 1];
      r := Emit(Table(top.ty, top.fields), top.late, from);
      if r != 0 { frames := frames[..|frames| - 1]; }
    }

    /** `flatcc_builder_start_offset_vector`. */
    method StartOffsetVector() returns (rc: int)
      modifies this`frames, this`budget
      ensures rc == 0 <==> old(budget) > 0
      ensures if rc == 0 then budget == old(budget) - 1 && frames == old(frames) + [VectorFrame([])]
              else budget == 0 && frames == old(frames)
    {
      var ok := Spend();
      if ok {
        frames := frames + [VectorFrame([])];
        rc := 0;
      } else {
        rc := -1;
      }
    }

    /** `flatcc_builder_offset_vector_push`: false is the null pointer of a failure. */
    method OffsetVectorPush(ref: Address) returns (ok: bool)
      requires frames != [] && Get().Top().VectorFrame? && ref != 0
      modifies this`frames, this`budget
      ensures ok <==> old(budget) > 0
      ensures if ok
        then budget == old(budget) - 1 && frames == old(Get().Below()) + [VectorFrame(old(Get().Top().elems) + [ref])]
        else budget == 0 && frames == old(frames)
    {
      ok := Spend();
      if ok { frames := frames[..|frames| - 1] + [VectorFrame(frames[|frames| - 1].elems + [ref])]; }
    }

    /** `flatcc_builder_end_offset_vector`, of tables of one type or of the values of a union vector. */
    method EndOffsetVector(elemType: Option<TableType>, ghost from: Option<Address>) returns (r: Address)
      requires Get().Valid() && frames != [] && Get().Top().VectorFrame?
      modifies this`out, this`last, this`budget, this`origin, this`late, this`frames
      ensures Emitted(old(Get()), Get(), OffsetVector(elemType, old(Get().Top().elems)), map[], from, r)
      ensures frames == if r != 0 then old(Get().Below()) else old(frames)
    {
      r := Emit(OffsetVector(elemType, frames[|frames| - 1].elems), map[], from);
      if r != 0 { frames := frames[..|frames| - 1]; }
    }

    /** `flatcc_builder_refmap_find`. */
    method RefmapFind(src: Address) returns (r: Address)
      ensures r == Get().Find(src)
    {
      r := if refmap.Some? && src in refmap.value then refmap.value[src] else 0;
    }

    /** `flatcc_builder_refmap_insert`: returns its argument without a refmap or for a null source, otherwise
        stores it, replacing any entry, and returns it; 0 if the map cannot grow. */
    method RefmapInsert(src: Address, ref: Address) returns (r: Address)
      modifies this`refmap, this`budget
      ensures refmap.Some? <==> old(refmap).Some?
      ensures refmap.None? || src == 0 ==> r == ref && refmap == old(refmap) && budget == old(budget)
      ensures refmap.Some? && src != 0 ==>
        if old(budget) > 0
        then r == ref && refmap.value == old(refmap).value[src := ref] && budget == old(budget) - 1
        else r == 0 && refmap == old(refmap) && budget == 0
    {
      if refmap.None? || src == 0 {
        r := ref;
      } else {
        var ok := Spend();
        if ok {
          refmap := Some(refmap.value[src := ref]);
          r := ref;
        } else {
          r := 0;
        }
      }
    }
  }
}
