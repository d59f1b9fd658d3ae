/** What a clone does to the builder, computed before it begins: how many primitives it spends, what it memoises, and
    which union types it stores too late. */
module Walks {
  import opened Wrappers
  import opened Memory
  import opened Schema
  import opened Builders

  /** What the course of a clone depends on. */
  datatype Course = Course(
    /** How many more primitives succeed; below zero once one has failed. */
    left: int,
    /** The memoised addresses, each with the fields that were stored too late in its copy; None without a refmap. */
    known: Option<map<Address, Late>>,
    /** The adds that move the stack, and the bytes left in new fields, as in the state of the builder. */
    moves: set<nat>,
    residues: map<nat, byte>)
  {
    predicate Knows(a: Address) {
      known.Some? && a in known.value
    }

    predicate Follows(c: Course) {
      left <= c.left && (known.None? <==> c.known.None?) && moves == c.moves && residues == c.residues
    }

    function Spend(n: nat): Course {
      this.(left := left - n)
    }
  }

  /** The course after an object or a field was cloned, and the fields stored too late in it. */
  datatype Visit = Visit(course: Course, late: Late)
  {
    /** After the memo entry of the object at `a`. */
    function Memoised(a: Address): Visit {
      if course.known.None? then this
      else Visit(course.Spend(1).(known := Some(course.known.value[a := late])), late)
    }
  }

  function KnownTo(s: State): Option<map<Address, Late>> {
    if s.refmap.None? then None
    else Some(map a | a in s.refmap.value && s.refmap.value[a] != 0 :: LateOf(s.late, s.refmap.value[a]))
  }

  function CourseOf(s: State): Course {
    Course(s.budget, KnownTo(s), s.moves, s.residues)
  }

  /** The order in which the generated clone functions pick the fields. Picking the union value of a message
      picks its type too. */
  function PickOrder(ty: TableType): seq<nat> {
    match ty
    case User => [0, 1, 2]
    case CheckContract => [0, 3, 6, 1, 2, 4, 7, 5]
    case GetMe => [0, 1, 2, 3, 4]
    case Message => [1, 3, 2]
    case _ => [0]
  }

  /** Cloning the object of kind `k` at `a`. */
  function Walk(src: Store, k: Kind, a: Address, c: Course): (v: Visit)
    ensures v.course.Follows(c)
    decreases Rank(k), 2, 0
  {
    if c.Knows(a) then Visit(c, c.known.value[a]) else
    if a !in src || KindOf(src[a]) != k then Visit(c, map[]) else
    match src[a]
    case Table(ty, gs) =>
      var v := WalkPicks(src, ty, gs, |PickOrder(ty)|, c.Spend(1));
      Visit(v.course.Spend(1), v.late).Memoised(a)
    case TableVec(ty, es) =>
      Visit(WalkElements(src, ty, es, |es|, c.Spend(1)).Spend(1), map[]).Memoised(a)
    case UnionVec(_) => Visit(c, map[])
    case _ => Visit(c.Spend(1), map[]).Memoised(a)
  }

  /** The first `n` picks of a table with fields `gs`. */
  function WalkPicks(src: Store, ty: TableType, gs: map<nat, Field>, n: nat, c: Course): (v: Visit)
    requires n <= |PickOrder(ty)|
    ensures v.course.Follows(c)
    decreases TableRank(ty), 1, n
  {
    if n == 0 then Visit(c, map[]) else
    var v := WalkPicks(src, ty, gs, n - 1, c);
    var w := WalkPick(src, ty, gs, PickOrder(ty)[n - 1], v.course);
    Visit(w.course, v.late + w.late)
  }

  /** One pick: the clone of what the field refers to, if anything, and its add. A union is two adds; its type is
      stored too late if the second of them, that of the value, moves the stack. */
  function WalkPick(src: Store, ty: TableType, gs: map<nat, Field>, id: nat, c: Course): (v: Visit)
    ensures v.course.Follows(c)
    decreases TableRank(ty), 0, 0
  {
    if id !in gs || id >= |Fields(ty)| then Visit(c, map[]) else
    match RefKind(ty, gs, id)
    case None => Visit(if Fields(ty)[id].ScalarField? then c.Spend(1) else c, map[])
    case Some(k) =>
      var d := if gs[id].Ref? then Walk(src, k, gs[id].to, c).course else c;
      if Fields(ty)[id].UnionValueField?
      then Visit(d.Spend(2), if d.left - 1 in d.moves then map[0 := Residue(d.residues, d.left)] else map[])
      else Visit(d.Spend(1), map[])
  }

  /** The first `n` elements of a vector of tables, and their pushes. */
  function WalkElements(src: Store, ty: TableType, es: seq<Address>, n: nat, c: Course): (d: Course)
    requires n <= |es|
    ensures d.Follows(c)
    decreases TableRank(ty), 3, n
  {
    if n == 0 then c else
    Walk(src, TableKind(ty), es[n - 1], WalkElements(src, ty, es, n - 1, c)).course.Spend(1)
  }

  lemma {:induction false} WalkOfTable(src: Store, a: Address, c: Course)
    requires a in src && src[a].Table? && !c.Knows(a)
    ensures var v := WalkPicks(src, src[a].ty, src[a].fields, |PickOrder(src[a].ty)|, c.Spend(1));
      Walk(src, KindOf(src[a]), a, c) == Visit(v.course.Spend(1), v.late).Memoised(a)
  {
    hide WalkPicks, PickOrder;
  }

  lemma {:induction false} WalkOfVector(src: Store, a: Address, c: Course)
    requires a in src && src[a].TableVec? && !c.Knows(a)
    ensures var d := WalkElements(src, src[a].elemType, src[a].elems, |src[a].elems|, c.Spend(1));
      Walk(src, KindOf(src[a]), a, c) == Visit(d.Spend(1), map[]).Memoised(a)
  {
    hide WalkElements;
  }

  /** A primitive that fails in one pick fails the table. */
  lemma {:induction false} PicksSpend(src: Store, ty: TableType, gs: map<nat, Field>, n: nat, m: nat, c: Course)
    requires n <= m <= |PickOrder(ty)|
    ensures WalkPicks(src, ty, gs, m, c).course.left <= WalkPicks(src, ty, gs, n, c).course.left
    decreases m
  {
    hide PickOrder, WalkPick, Walk;
    if n < m { PicksSpend(src, ty, gs, n, m - 1, c); }
  }

  /** A primitive that fails in one element fails the vector. */
  lemma {:induction false} ElementsSpend(src: Store, ty: TableType, es: seq<Address>, n: nat, m: nat, c: Course)
    requires n <= m <= |es|
    ensures WalkElements(src, ty, es, m, c).left <= WalkElements(src, ty, es, n, c).left
    decreases m
  {
    hide Walk;
    if n < m { ElementsSpend(src, ty, es, n, m - 1, c); }
  }
}
