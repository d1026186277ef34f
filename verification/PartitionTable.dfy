/** The hash table of a partition (src/partition.cpp, include/dbm/partition.h): open addressing, growth, and the
    invariant that the subsets are disjoint and `all` is their union. */
module PartitionTable {
  import opened Bounds
  import opened Zones
  import opened Analysis
  import opened Federations
  import Subtraction
  import Reduction
  import Predecessor

  /** A table entry: the subset of the partition with number `id`, or nothing. */
  datatype Slot = Free | Entry(id: nat, fed: Fed)

  /** id & mask; mask + 1 is a power of two, so this is the remainder of dividing by the size of the table. */
  function Home(id: nat, size: nat): (h: nat)
    requires size > 0
    ensures h < size
  {
    if id < size then id else Home(id - size, size)
  }

  /** Ids that differ by a multiple of the size have the same home, and the home of an id below the size is the id. */
  lemma {:induction false} HomeIsRemainder(h: nat, q: nat, size: nat)
    requires h < size
    ensures q * size >= 0 && Home(h + q * size, size) == h
  {
    if q > 0 {
      assert q * size == (q - 1) * size + size;
      HomeIsRemainder(h, q - 1, size);
    }
  }

  /** (h + d) & mask, for a position h and up to once around the table */
  function Around(size: nat, h: nat, d: nat): (x: nat)
    requires h < size && d < size
    ensures x < size
  {
    if h + d < size then h + d else h + d - size
  }

  lemma AroundReaches(size: nat, h: nat, x: nat) returns (d: nat)
    requires h < size && x < size
    ensures d < size && Around(size, h, d) == x
  {
    d := if x >= h then x - h else x + size - h;
  }

  lemma AroundInjective(size: nat, h: nat, d: nat, e: nat)
    requires h < size && d < size && e < size && Around(size, h, d) == Around(size, h, e)
    ensures d == e
  {
  }

  /** The d-th slot that is probed for id. */
  function Probed(s: seq<Slot>, id: nat, d: nat): Slot
    requires d < |s|
  {
    s[Around(|s|, Home(id, |s|), d)]
  }

  /** Probing for id does not stop before step d. */
  ghost predicate ProbesTo(s: seq<Slot>, id: nat, d: nat) {
    d < |s| && forall e: nat {:trigger Probed(s, id, e)} :: e < d ==> Probed(s, id, e).Entry?
  }

  ghost predicate Holds(s: seq<Slot>, x: nat, id: nat) {
    x < |s| && s[x].Entry? && s[x].id == id
  }

  /** Every entry is where probing finds it, and no id has two entries. */
  ghost predicate TableOK(s: seq<Slot>) {
    |s| > 0 &&
    (forall x: nat, d: nat {:trigger s[x], Around(|s|, Home(s[x].id, |s|), d)} ::
      x < |s| && s[x].Entry? && d < |s| && Around(|s|, Home(s[x].id, |s|), d) == x ==> ProbesTo(s, s[x].id, d)) &&
    forall x: nat, y: nat {:trigger s[x], s[y]} :: x < |s| && y < |s| && s[x].Entry? && s[y].Entry? && s[x].id == s[y].id ==> x == y
  }

  /** The subset with number id; it is empty when there is none. */
  ghost function Find(s: seq<Slot>, id: nat): Fed {
    if exists x: nat :: Holds(s, x, id) then (var x: nat :| Holds(s, x, id); s[x].fed) else []
  }

  lemma FindIs(s: seq<Slot>, x: nat, id: nat)
    requires TableOK(s) && Holds(s, x, id)
    ensures Find(s, id) == s[x].fed
  {
  }

  lemma FindsNothing(s: seq<Slot>, id: nat)
    requires forall x: nat :: !Holds(s, x, id)
    ensures Find(s, id) == []
  {
  }

  /** When probing for id comes to a free slot, there is no entry for it. */
  lemma NotStored(s: seq<Slot>, id: nat, d: nat)
    requires TableOK(s) && ProbesTo(s, id, d) && Probed(s, id, d).Free?
    requires forall e: nat {:trigger Probed(s, id, e)} :: e < d && Probed(s, id, e).Entry? ==> Probed(s, id, e).id != id
    ensures forall x: nat :: !Holds(s, x, id)
  {
    forall x: nat ensures !Holds(s, x, id) {
      if x < |s| && s[x].Entry? {
        var dx := EntryIsProbed(s, x);
      }
    }
  }

  lemma EntryIsProbed(s: seq<Slot>, x: nat) returns (d: nat)
    requires TableOK(s) && x < |s| && s[x].Entry?
    ensures ProbesTo(s, s[x].id, d) && Probed(s, s[x].id, d) == s[x]
  {
    d := AroundReaches(|s|, Home(s[x].id, |s|), x);
  }

  /** As long as some slot is free, probing comes to an end. */
  lemma ProbingEnds(s: seq<Slot>, id: nat, d: nat, f: nat)
    requires ProbesTo(s, id, d) && f < |s| && s[f].Free? && Probed(s, id, d).Entry?
    ensures ProbesTo(s, id, d + 1)
  {
    var df := AroundReaches(|s|, Home(id, |s|), f);
    assert Probed(s, id, df) == s[f];
  }

  function Count(s: seq<Slot>): (c: nat)
    ensures c <= |s|
  {
    if s == [] then 0 else Count(s[..|s| - 1]) + if s[|s| - 1].Entry? then 1 else 0
  }

  lemma {:induction false} SomeFree(s: seq<Slot>)
    requires Count(s) < |s|
    ensures exists f: nat :: f < |s| && s[f].Free?
  {
    if s[|s| - 1].Entry? {
      var t := s[..|s| - 1];
      SomeFree(t);
      var f: nat :| f < |t| && t[f].Free?;
      assert s[f] == t[f];
    }
  }

  lemma {:induction false} CountPut(s: seq<Slot>, x: nat, e: Slot)
    requires x < |s| && e.Entry?
    ensures Count(s[x := e]) == Count(s) + if s[x].Free? then 1 else 0
  {
    var t, s' := s[..|s| - 1], s[x := e];
    if x < |s| - 1 {
      CountPut(t, x, e);
      assert s'[..|s| - 1] == t[x := e];
    } else {
      assert s'[..|s| - 1] == t;
    }
  }

  lemma {:induction false} CountNone(s: seq<Slot>)
    requires forall x :: 0 <= x < |s| ==> s[x].Free?
    ensures Count(s) == 0
  {
    if s != [] {
      CountNone(s[..|s| - 1]);
    }
  }

  /** A new entry goes to the free slot where probing for it ends. */
  lemma PutNew(s: seq<Slot>, id: nat, d: nat, fed: Fed)
    requires TableOK(s) && ProbesTo(s, id, d) && Probed(s, id, d).Free? && forall x: nat :: !Holds(s, x, id)
    ensures var s' := s[Around(|s|, Home(id, |s|), d) := Entry(id, fed)];
      TableOK(s') && Find(s', id) == fed && forall id': nat :: id' != id ==> Find(s', id') == Find(s, id')
  {
    var x := Around(|s|, Home(id, |s|), d);
    var s' := s[x := Entry(id, fed)];
    forall y: nat, e: nat {:trigger s'[y], Around(|s'|, Home(s'[y].id, |s'|), e)}
      | y < |s'| && s'[y].Entry? && e < |s'| && Around(|s'|, Home(s'[y].id, |s'|), e) == y ensures ProbesTo(s', s'[y].id, e)
    {
      if y == x {
        AroundInjective(|s|, Home(id, |s|), d, e);
        StillProbes(s, s', id, d, x);
      } else {
        assert s'[y] == s[y];
        StillProbes(s, s', s[y].id, e, x);
      }
    }
    forall y: nat | y < |s| && y != x && s[y].Entry? ensures s[y].id != id {
      assert !Holds(s, y, id);
    }
    FindIs(s', x, id);
    OthersFound(s, s', x, id);
  }

  lemma StillProbes(s: seq<Slot>, s': seq<Slot>, id: nat, d: nat, x: nat)
    requires ProbesTo(s, id, d) && x < |s| && |s'| == |s| && s' == s[x := s'[x]] && s'[x].Entry?
    ensures ProbesTo(s', id, d)
  {
    forall e: nat {:trigger Probed(s', id, e)} | e < d ensures Probed(s', id, e).Entry? {
      assert Probed(s, id, e).Entry?;
    }
  }

  /** The entry of id gets another federation. */
  lemma PutAgain(s: seq<Slot>, x: nat, id: nat, fed: Fed)
    requires TableOK(s) && Holds(s, x, id)
    ensures var s' := s[x := Entry(id, fed)];
      TableOK(s') && Find(s', id) == fed && forall id': nat :: id' != id ==> Find(s', id') == Find(s, id')
  {
    var s' := s[x := Entry(id, fed)];
    forall y: nat, e: nat {:trigger s'[y], Around(|s'|, Home(s'[y].id, |s'|), e)}
      | y < |s'| && s'[y].Entry? && e < |s'| && Around(|s'|, Home(s'[y].id, |s'|), e) == y ensures ProbesTo(s', s'[y].id, e)
    {
      assert s'[y].id == s[y].id && s[y].Entry?;
      StillProbes(s, s', s[y].id, e, x);
    }
    FindIs(s', x, id);
    OthersFound(s, s', x, id);
  }

  lemma OthersFound(s: seq<Slot>, s': seq<Slot>, x: nat, id: nat)
    requires TableOK(s) && TableOK(s') && x < |s| == |s'| && s' == s[x := s'[x]] && Holds(s', x, id) && (Holds(s, x, id) || s[x].Free?)
    ensures forall id': nat :: id' != id ==> Find(s', id') == Find(s, id')
  {
    forall id': nat | id' != id ensures Find(s', id') == Find(s, id') {
      if y: nat :| Holds(s, y, id') {
        assert Holds(s', y, id');
        FindIs(s, y, id');
        FindIs(s', y, id');
      } else {
        forall y: nat ensures !Holds(s', y, id') {
          assert !Holds(s, y, id');
        }
      }
    }
  }

  // ----- What the table means -----

  ghost predicate InSlot(v: Valuation, s: seq<Slot>, x: nat) {
    x < |s| && s[x].Entry? && InFed(v, s[x].fed)
  }

  /** The subsets are federations of dimension n, and `all` is their union. */
  ghost predicate PartsOK(s: seq<Slot>, all: Fed, n: nat) {
    FedOK(all, n) && (forall x {:trigger s[x]} :: 0 <= x < |s| && s[x].Entry? ==> FedOK(s[x].fed, n)) &&
    forall v: Valuation :: InFed(v, all) <==> exists x: nat :: InSlot(v, s, x)
  }

  ghost predicate PartsDisjoint(s: seq<Slot>) {
    forall v: Valuation, x: nat, y: nat {:trigger InSlot(v, s, x), InSlot(v, s, y)} :: InSlot(v, s, x) && InSlot(v, s, y) ==> x == y
  }

  /** One subset grows by the points of `more`, and the union with it. */
  lemma GrowPart(s: seq<Slot>, all: Fed, n: nat, x: nat, id: nat, more: Fed, fed: Fed, all': Fed)
    requires PartsOK(s, all, n) && x < |s| && (s[x].Free? || s[x].id == id) && FedOK(fed, n) && FedOK(all', n)
    requires forall v: Valuation :: InFed(v, fed) <==> InFed(v, more) || InSlot(v, s, x)
    requires forall v: Valuation :: InFed(v, all') <==> InFed(v, all) || InFed(v, more)
    ensures PartsOK(s[x := Entry(id, fed)], all', n)
    ensures PartsDisjoint(s) && (forall v: Valuation :: !(InFed(v, more) && InFed(v, all))) ==> PartsDisjoint(s[x := Entry(id, fed)])
  {
    var s' := s[x := Entry(id, fed)];
    forall v: Valuation ensures InFed(v, all') <==> exists y: nat :: InSlot(v, s', y) {
      GrowPoint(s, s', all, x, id, more, fed, v);
    }
    if PartsDisjoint(s) && forall v: Valuation :: !(InFed(v, more) && InFed(v, all)) {
      forall v: Valuation, y: nat, z: nat {:trigger InSlot(v, s', y), InSlot(v, s', z)} | InSlot(v, s', y) && InSlot(v, s', z) ensures y == z {
        assert y != x ==> InSlot(v, s, y);
        assert z != x ==> InSlot(v, s, z);
        assert y == x || z == x ==> InFed(v, fed);
        assert y != x || z != x ==> InFed(v, all);
      }
    }
  }

  lemma GrowPoint(s: seq<Slot>, s': seq<Slot>, all: Fed, x: nat, id: nat, more: Fed, fed: Fed, v: Valuation)
    requires x < |s| && s' == s[x := Entry(id, fed)] && (InFed(v, all) <==> exists y: nat :: InSlot(v, s, y))
    requires InFed(v, fed) <==> InFed(v, more) || InSlot(v, s, x)
    ensures (exists y: nat :: InSlot(v, s', y)) <==> InFed(v, all) || InFed(v, more)
  {
    if y: nat :| InSlot(v, s', y) {
      assert y != x ==> InSlot(v, s, y);
    }
    if y: nat :| InSlot(v, s, y) {
      assert if y != x then InSlot(v, s', y) else InSlot(v, s', x);
    }
    if InFed(v, more) {
      assert InSlot(v, s', x);
    }
  }

  // ----- The table -----

  class FedTable {
    const dim: nat
    const noPartition: bool
    const slots: array<Slot>
    var refCounter: nat
    var nbEntries: nat
    var all: Fed
    /** The partitions that refer to this table. */
    ghost var owners: set<Partition>

    /** refCounter counts the references. */
    ghost predicate Counted()
      reads this, owners
    {
      refCounter == |owners| && forall p :: p in owners ==> p.fedTable == this
    }

    ghost predicate TableGood()
      reads this, slots
    {
      dim <= NONE && TableOK(slots[..]) && nbEntries == Count(slots[..])
    }

    /** The invariant, but for the number of references. */
    ghost predicate Good()
      reads this, slots
    {
      TableGood() && PartsOK(slots[..], all, dim) && (!noPartition ==> PartsDisjoint(slots[..]))
    }

    /** The table is not so full that it has to grow. */
    ghost predicate HasRoom()
      reads this
    {
      4 * nbEntries <= 3 * slots.Length
    }

    ghost function Subset(id: nat): Fed
      reads slots
    {
      Find(slots[..], id)
    }

    /** fedtable_t::create, and the constructor it calls */
    constructor (dim: nat, noPartition: bool, size: nat, all: Fed, nbEntries: nat)
      requires size > 0 && dim <= NONE
      ensures this.dim == dim && this.noPartition == noPartition && this.all == all && this.nbEntries == nbEntries && refCounter == 1
      ensures fresh(slots) && slots.Length == size && (forall x :: 0 <= x < size ==> slots[x] == Free) && owners == {}
    {
      this.dim, this.noPartition, this.all, this.nbEntries, refCounter := dim, noPartition, all, nbEntries, 1;
      owners := {};
      slots := new Slot[size](_ => Free);
    }

    /** The slot where probing for id ends: its entry, or a free one. */
    method Probe(id: nat) returns (x: nat)
      requires TableGood() && nbEntries < slots.Length
      ensures x < slots.Length && (slots[x].Entry? ==> slots[x].id == id)
      ensures slots[x].Free? ==> forall y: nat :: !Holds(slots[..], y, id)
      ensures slots[x].Free? ==> exists d: nat :: ProbesTo(slots[..], id, d) && x == Around(slots.Length, Home(id, slots.Length), d)
    {
      ghost var s := slots[..];
      SomeFree(s);
      ghost var f: nat :| f < |s| && s[f].Free?;
      x := Home(id, slots.Length);
      ghost var d := 0;
      while slots[x].Entry? && slots[x].id != id
        invariant ProbesTo(s, id, d) && x == Around(slots.Length, Home(id, slots.Length), d)
        invariant forall e: nat {:trigger Probed(s, id, e)} :: e < d && Probed(s, id, e).Entry? ==> Probed(s, id, e).id != id
        decreases slots.Length - d
      {
        ProbingEnds(s, id, d, f);
        x := if x + 1 == slots.Length then 0 else x + 1;
        d := d + 1;
      }
      if slots[x].Free? {
        NotStored(s, id, d);
      }
    }

    /** fedtable_t::get; its parameter has 32 bits. */
    method Get(id: nat) returns (fed: Fed)
      requires Good() && HasRoom() && id < 0x1_0000_0000
      ensures fed == Subset(id)
    {
      var x := Probe(id);
      if slots[x].Entry? {
        FindIs(slots[..], x, id);
        return slots[x].fed;
      }
      FindsNothing(slots[..], id);
      return [];
    }

    /** What add puts into the subset: the points that no subset has yet, if subsets are to be disjoint. */
    ghost predicate IsNew(v: Valuation, id: nat, fed: Fed)
      reads this
    {
      InFed(v, fed) && ((noPartition && id != 0) || !InFed(v, all))
    }

    /** fedtable_t::add; true when the table must grow. */
    method Add(id: nat, fedi: Fed, restrictedMerge: bool) returns (grow: bool)
      requires Good() && HasRoom() && FedOK(fedi, dim)
      modifies this, slots
      ensures Good() && nbEntries <= old(nbEntries) + 1 && grow == (4 * nbEntries > 3 * slots.Length)
      ensures refCounter == old(refCounter) && owners == old(owners)
      ensures forall v: Valuation :: InFed(v, Subset(id)) <==> InFed(v, old(Subset(id))) || old(IsNew(v, id, fedi))
      ensures forall id': nat :: id' != id ==> Subset(id') == old(Subset(id'))
      ensures forall v: Valuation :: InFed(v, all) <==> InFed(v, old(all)) || InFed(v, fedi)
    {
      ghost var all0 := all;
      var newi := fedi;
      if !(noPartition && id != 0) {
        newi := Subtraction.SubtractFed(newi, all, dim);
      }
      assert forall v: Valuation :: InFed(v, newi) <==> IsNew(v, id, fedi);
      if |newi| == 0 {
        assert forall v: Valuation :: !InFed(v, newi);
        return false;
      }
      newi := AddToAll(id, newi, fedi, restrictedMerge);
      grow := AddToSubset(id, newi, all0, restrictedMerge);
    }

    /** The new points go to `all`, in the shape that takes fewer matrices. */
    method AddToAll(id: nat, new0: Fed, fedi: Fed, restrictedMerge: bool) returns (newi: Fed)
      requires FedOK(all, dim) && FedOK(new0, dim) && FedOK(fedi, dim) && dim <= NONE
      requires forall v: Valuation :: InFed(v, new0) <==> IsNew(v, id, fedi)
      modifies this`all
      ensures FedOK(all, dim) && FedOK(newi, dim) && SameFed(newi, new0)
      ensures forall v: Valuation :: InFed(v, all) <==> InFed(v, old(all)) || InFed(v, newi)
      ensures forall v: Valuation :: InFed(v, all) <==> InFed(v, old(all)) || InFed(v, fedi)
    {
      ghost var all0 := all;
      newi := Reduction.MergeReduce(new0, dim, 0, 0, restrictedMerge);
      if |newi| < |fedi| {
        if |all| > 0 {
          all := Predecessor.Steal(all, newi, dim, restrictedMerge);
        } else {
          all := newi;
          assert forall v: Valuation :: !InFed(v, all0);
        }
      } else {
        all := Predecessor.Steal(all, fedi, dim, restrictedMerge);
      }
      assert forall v: Valuation :: InFed(v, newi) <==> InFed(v, new0);
    }

    /** The new points go to the entry of id, which may be a new one. */
    method AddToSubset(id: nat, newi: Fed, ghost all0: Fed, restrictedMerge: bool) returns (grow: bool)
      requires TableGood() && HasRoom() && PartsOK(slots[..], all0, dim) && FedOK(all, dim) && FedOK(newi, dim)
      requires !noPartition ==> PartsDisjoint(slots[..]) && forall v: Valuation :: !(InFed(v, newi) && InFed(v, all0))
      requires forall v: Valuation :: InFed(v, all) <==> InFed(v, all0) || InFed(v, newi)
      modifies this`nbEntries, slots
      ensures Good() && nbEntries <= old(nbEntries) + 1 && grow == (4 * nbEntries > 3 * slots.Length)
      ensures forall v: Valuation :: InFed(v, Subset(id)) <==> InFed(v, old(Subset(id))) || InFed(v, newi)
      ensures forall id': nat :: id' != id ==> Subset(id') == old(Subset(id'))
    {
      ghost var s := slots[..];
      var x := Probe(id);
      if slots[x].Free? {
        ghost var d: nat :| ProbesTo(s, id, d) && x == Around(|s|, Home(id, |s|), d);
        FindsNothing(s, id);
        PutNew(s, id, d, newi);
        CountPut(s, x, Entry(id, newi));
        GrowPart(s, all0, dim, x, id, newi, newi, all);
        slots[x] := Entry(id, newi);
        nbEntries := nbEntries + 1;
        assert slots[..] == s[x := Entry(id, newi)];
      } else {
        FindIs(s, x, id);
        var fed := Predecessor.Steal(slots[x].fed, newi, dim, restrictedMerge);
        PutAgain(s, x, id, fed);
        CountPut(s, x, Entry(id, fed));
        GrowPart(s, all0, dim, x, id, newi, fed, all);
        slots[x] := Entry(id, fed);
        assert slots[..] == s[x := Entry(id, fed)];
      }
      return 4 * nbEntries > 3 * slots.Length;
    }

    /** The free slot where probing for an id without entry ends. */
    method FreeSlot(id: nat) returns (x: nat)
      requires TableGood() && nbEntries < slots.Length && forall y: nat :: !Holds(slots[..], y, id)
      ensures x < slots.Length && slots[x].Free?
      ensures exists d: nat :: ProbesTo(slots[..], id, d) && x == Around(slots.Length, Home(id, slots.Length), d)
    {
      x := Probe(id);
      assert slots[x].Entry? ==> Holds(slots[..], x, id);
    }

    /** One turn of the loop of larger: an entry of the old table moves to the new one. */
    method Move(e: Slot, ghost s: seq<Slot>, ghost i: nat)
      requires TableGood() && nbEntries < slots.Length && i < |s| && e == s[i] && TableOK(s) && MovedTo(s, slots[..], i)
      modifies this`nbEntries, slots
      ensures TableGood() && MovedTo(s, slots[..], i + 1) && nbEntries == old(nbEntries) + if e.Entry? then 1 else 0
    {
      ghost var t := slots[..];
      if e.Entry? {
        NotMovedYet(s, t, i);
        var x := FreeSlot(e.id);
        ghost var d: nat :| ProbesTo(t, e.id, d) && x == Around(|t|, Home(e.id, |t|), d);
        PutNew(t, e.id, d, e.fed);
        CountPut(t, x, e);
        slots[x] := e;
        nbEntries := nbEntries + 1;
        assert slots[..] == t[x := Entry(e.id, e.fed)];
        MoveOne(s, t, i, x);
      } else {
        MoveNone(s, t, i);
      }
    }

    /** fedtable_t::larger: every subset is found in the larger table as it was in the smaller one. */
    method Larger() returns (t: FedTable)
      requires Good()
      ensures fresh(t) && fresh(t.slots) && t.Good() && t.slots.Length == 2 * slots.Length && t.refCounter == 1
      ensures t.dim == dim && t.noPartition == noPartition && t.all == all && t.nbEntries == nbEntries
      ensures forall id: nat :: t.Subset(id) == Subset(id)
    {
      ghost var s := slots[..];
      t := new FedTable(dim, noPartition, 2 * slots.Length, all, 0);
      EmptyTable(t.slots[..]);
      var i := 0;
      while i < slots.Length
        invariant 0 <= i <= slots.Length && slots[..] == s && fresh(t) && fresh(t.slots) && unchanged(this)
        invariant t.TableGood() && MovedTo(s, t.slots[..], i) && t.nbEntries <= i && t.nbEntries == Count(s[..i])
        invariant t.dim == dim && t.noPartition == noPartition && t.all == all && t.slots.Length == 2 * slots.Length && t.refCounter == 1
      {
        assert s[..i + 1][..i] == s[..i];
        t.Move(slots[i], s, i);
        i := i + 1;
      }
      assert s[..i] == s;
      AllMoved(s, t.slots[..], all, dim);
    }

    /** fedtable_t::copy, up to the reference counter of the original */
    method Copy() returns (t: FedTable)
      requires Good() && slots.Length > 0
      ensures fresh(t) && fresh(t.slots) && t.Good() && t.slots[..] == slots[..] && t.refCounter == 1
      ensures t.dim == dim && t.noPartition == noPartition && t.all == all && t.nbEntries == nbEntries
    {
      t := new FedTable(dim, noPartition, slots.Length, all, nbEntries);
      var i := 0;
      while i < slots.Length
        invariant 0 <= i <= slots.Length && fresh(t) && fresh(t.slots) && t.slots.Length == slots.Length
        invariant t.slots[..i] == slots[..i] && unchanged(this, slots)
        invariant t.dim == dim && t.noPartition == noPartition && t.all == all && t.nbEntries == nbEntries && t.refCounter == 1
      {
        t.slots[i] := slots[i];
        i := i + 1;
      }
      assert t.slots[..] == slots[..];
    }
  }

  // ----- Partitions -----

  /** A partition is a reference to a table, which it shares with its copies until one of them is changed.  Before
      anything is added there is no table. */
  class Partition {
    const dim: nat
    const noPartition: bool
    var fedTable: FedTable?

    ghost predicate Valid()
      reads this, fedTable, if fedTable != null then {fedTable.slots} else {}, if fedTable != null then fedTable.owners else {}
    {
      dim <= NONE &&
      (fedTable != null ==>
        fedTable.Good() && fedTable.HasRoom() && fedTable.slots.Length >= 2 && fedTable.dim == dim && fedTable.noPartition == noPartition &&
        this in fedTable.owners && fedTable.Counted())
    }

    /** The subset with number id. */
    ghost function Subset(id: nat): Fed
      reads this, fedTable, if fedTable != null then {fedTable.slots} else {}
    {
      if fedTable == null then [] else fedTable.Subset(id)
    }

    ghost function All(): Fed
      reads this, fedTable
    {
      if fedTable == null then [] else fedTable.all
    }

    constructor (dim: nat, noPartition: bool)
      requires dim <= NONE
      ensures Valid() && this.dim == dim && this.noPartition == noPartition && All() == [] && forall id: nat :: Subset(id) == []
    {
      this.dim, this.noPartition, fedTable := dim, noPartition, null;
    }

    /** "The copy is a reference copy only." */
    constructor CopyOf(arg: Partition)
      requires arg.Valid()
      modifies arg.fedTable
      ensures Valid() && arg.Valid() && fedTable == arg.fedTable == old(arg.fedTable)
      ensures All() == old(arg.All()) && forall id: nat :: Subset(id) == old(arg.Subset(id))
      ensures fedTable != null ==> fedTable.owners == old(arg.fedTable.owners) + {this}
    {
      dim, noPartition, fedTable := arg.dim, arg.noPartition, arg.fedTable;
      new;
      if fedTable != null {
        fedTable.refCounter := fedTable.refCounter + 1;
        fedTable.owners := fedTable.owners + {this};
      }
    }

    /** checkMutable, or the first table: afterwards no other partition refers to the table. */
    method MakeMutable()
      requires Valid()
      modifies this, fedTable
      ensures Valid() && fedTable != null && fedTable.owners == {this} && (fedTable == old(fedTable) || (fresh(fedTable) && fresh(fedTable.slots)))
      ensures All() == old(All()) && forall id: nat :: Subset(id) == old(Subset(id))
      ensures fedTable == old(fedTable) ==> old(fedTable.owners) == {this}
      ensures old(fedTable) != null && fedTable != old(fedTable) ==>
        unchanged(old(fedTable).slots) && old(fedTable).all == old(All()) && old(fedTable).nbEntries == old(fedTable.nbEntries) &&
        old(fedTable).Counted() && old(fedTable).owners == old(fedTable.owners) - {this}
    {
      if fedTable == null {
        var t := new FedTable(dim, noPartition, 2, [], 0);
        EmptyTable(t.slots[..]);
        t.owners := {this};
        fedTable := t;
        assert forall id: nat :: Find(t.slots[..], id) == [];
      } else if fedTable.refCounter != 1 {
        var t := fedTable.Copy();
        fedTable.refCounter := fedTable.refCounter - 1;
        fedTable.owners := fedTable.owners - {this};
        t.owners := {this};
        fedTable := t;
      } else {
        OnlyOwner(fedTable.owners, this);
      }
    }

    /** partition_t::add.  The subset and the union grow, no other subset changes, and no other partition that
        referred to the same table notices anything. */
    method Add(id: nat, fed: Fed, restrictedMerge: bool)
      requires Valid() && FedOK(fed, dim)
      modifies this, fedTable, if fedTable != null then {fedTable.slots} else {}
      ensures Valid()
      ensures forall v: Valuation :: InFed(v, Subset(id)) <==>
        InFed(v, old(Subset(id))) || (InFed(v, fed) && ((noPartition && id != 0) || !InFed(v, old(All()))))
      ensures forall id': nat :: id' != id ==> Subset(id') == old(Subset(id'))
      ensures forall v: Valuation :: InFed(v, All()) <==> InFed(v, old(All())) || InFed(v, fed)
      ensures old(fedTable) != null ==> forall q: Partition :: q in old(fedTable.owners) && q != this && old(q.Valid()) ==>
        q.Valid() && q.fedTable == old(q.fedTable) && q.All() == old(q.All()) && forall id': nat :: q.Subset(id') == old(q.Subset(id'))
    {
      ghost var table := fedTable;
      MakeMutable();
      assert table != null ==> forall q: Partition :: q in old(table.owners) && q != this && old(q.Valid()) ==>
        q.Valid() && q.fedTable == old(q.fedTable) && q.All() == old(q.All()) && forall id': nat :: q.Subset(id') == old(q.Subset(id'));
      AddOwned(id, fed, restrictedMerge);
    }

    /** The same for a table that nobody else refers to. */
    method AddOwned(id: nat, fed: Fed, restrictedMerge: bool)
      requires Valid() && FedOK(fed, dim) && fedTable != null && fedTable.owners == {this}
      modifies this, fedTable, fedTable.slots
      ensures Valid()
      ensures forall v: Valuation :: InFed(v, Subset(id)) <==>
        InFed(v, old(Subset(id))) || (InFed(v, fed) && ((noPartition && id != 0) || !InFed(v, old(All()))))
      ensures forall id': nat :: id' != id ==> Subset(id') == old(Subset(id'))
      ensures forall v: Valuation :: InFed(v, All()) <==> InFed(v, old(All())) || InFed(v, fed)
    {
      var grow := fedTable.Add(id, fed, restrictedMerge);
      assert forall id': nat :: id' != id ==> fedTable.Subset(id') == old(Subset(id'));
      if grow {
        ghost var grown := fedTable.Subset(id);
        var t := fedTable.Larger();
        t.owners := {this};
        fedTable := t;
        assert Subset(id) == grown;
      }
    }

    /** partition_t::get.  The id is narrowed to 32 bits on the way in, although add keeps all of it. */
    method Get(id: nat) returns (fed: Fed)
      requires Valid()
      ensures fed == Subset(Narrow(id))
    {
      if fedTable == null {
        return [];
      }
      fed := fedTable.Get(Narrow(id));
    }
  }

  /** What a call that takes a uint32_t makes of an id. */
  function Narrow(id: nat): (id': nat)
    ensures id' < 0x1_0000_0000
  {
    id % 0x1_0000_0000
  }

  /** A table of two slots with one entry. */
  lemma OneEntryTable(id: nat, fed: Fed) returns (s: seq<Slot>)
    ensures TableOK(s) && Find(s, id) == fed && forall id': nat :: id' != id ==> Find(s, id') == []
  {
    var empty := [Free, Free];
    EmptyTable(empty);
    var x := Around(2, Home(id, 2), 0);
    assert ProbesTo(empty, id, 0) && Probed(empty, id, 0).Free?;
    PutNew(empty, id, 0, fed);
    s := empty[x := Entry(id, fed)];
    forall id': nat ensures Find(empty, id') == [] {
      FindsNothing(empty, id');
    }
  }

  /** What get finds under an id is what add stored there, for every table, exactly when the id has 32 bits. */
  lemma GetFindsWhatAddStored(id: nat)
    ensures (forall s: seq<Slot> :: TableOK(s) ==> Find(s, Narrow(id)) == Find(s, id)) <==> id < 0x1_0000_0000
  {
    if id >= 0x1_0000_0000 {
      var s := OneEntryTable(id, [[[LE_ZERO]]]);
      assert Find(s, Narrow(id)) != Find(s, id);
    }
  }

  /** For instance, what was added under 2^32 is looked for under 0. */
  lemma WideIdIsLost()
    ensures exists s: seq<Slot> :: TableOK(s) && Find(s, 0x1_0000_0000) != [] && Find(s, Narrow(0x1_0000_0000)) == []
  {
    var s := OneEntryTable(0x1_0000_0000, [[[LE_ZERO]]]);
  }

  /** Different subsets of a partition share no point. */
  lemma SubsetsAreDisjoint(p: Partition, id: nat, id': nat, v: Valuation)
    requires p.Valid() && !p.noPartition && id != id'
    ensures !(InFed(v, p.Subset(id)) && InFed(v, p.Subset(id')))
  {
    if p.fedTable != null {
      FindsDisjoint(p.fedTable.slots[..], id, id', v);
    }
  }

  lemma FindsDisjoint(s: seq<Slot>, id: nat, id': nat, v: Valuation)
    requires TableOK(s) && PartsDisjoint(s) && id != id'
    ensures !(InFed(v, Find(s, id)) && InFed(v, Find(s, id')))
  {
    if x: nat :| Holds(s, x, id) {
      FindIs(s, x, id);
      if y: nat :| Holds(s, y, id') {
        FindIs(s, y, id');
        assert InSlot(v, s, x) <==> InFed(v, Find(s, id));
        assert InSlot(v, s, y) <==> InFed(v, Find(s, id'));
      }
    }
  }

  /** The union of the subsets is what `all` holds. */
  lemma SubsetsCover(p: Partition, v: Valuation)
    requires p.Valid()
    ensures InFed(v, p.All()) <==> exists id: nat :: InFed(v, p.Subset(id))
  {
    if p.fedTable != null {
      var s := p.fedTable.slots[..];
      if x: nat :| InSlot(v, s, x) {
        assert Holds(s, x, s[x].id);
        FindIs(s, x, s[x].id);
        assert InFed(v, p.Subset(s[x].id));
      }
      if id: nat :| InFed(v, p.Subset(id)) {
        if x: nat :| Holds(s, x, id) {
          FindIs(s, x, id);
          assert InSlot(v, s, x);
        }
      }
    }
  }

  lemma OnlyOwner(owners: set<Partition>, p: Partition)
    requires |owners| == 1 && p in owners
    ensures owners == {p}
  {
    assert |owners - {p}| == 0;
  }

  // ----- Growth -----

  ghost function Entries(s: seq<Slot>): (E: set<Slot>)
    ensures forall e {:trigger e in E} :: e in E <==> e in s && e.Entry?
  {
    set e | e in s && e.Entry?
  }

  /** The entries of s before i, and no others, are in t. */
  ghost predicate MovedTo(s: seq<Slot>, t: seq<Slot>, i: nat) {
    i <= |s| && Entries(t) == Entries(s[..i])
  }

  lemma EntryAt(s: seq<Slot>, e: Slot) returns (x: nat)
    requires e in Entries(s)
    ensures x < |s| && s[x] == e
  {
    x :| 0 <= x < |s| && s[x] == e;
  }

  lemma NotMovedYet(s: seq<Slot>, t: seq<Slot>, i: nat)
    requires TableOK(s) && i < |s| && s[i].Entry? && MovedTo(s, t, i)
    ensures forall y: nat :: !Holds(t, y, s[i].id)
  {
    forall y: nat | y < |t| && t[y].Entry? ensures t[y].id != s[i].id {
      assert t[y] in Entries(t);
      var x := EntryAt(s[..i], t[y]);
      assert s[x] == t[y];
    }
  }

  lemma MoveOne(s: seq<Slot>, t: seq<Slot>, i: nat, x: nat)
    requires MovedTo(s, t, i) && i < |s| && s[i].Entry? && x < |t| && t[x].Free?
    ensures MovedTo(s, t[x := s[i]], i + 1)
  {
    var t' := t[x := s[i]];
    assert s[..i + 1] == s[..i] + [s[i]];
    forall e ensures e in Entries(t') <==> e in Entries(t) || e == s[i] {
      if e in Entries(t) {
        var y := EntryAt(t, e);
        assert t'[y] == e;
      }
      assert t'[x] == s[i];
    }
    assert Entries(t') == Entries(s[..i + 1]);
  }

  lemma MoveNone(s: seq<Slot>, t: seq<Slot>, i: nat)
    requires MovedTo(s, t, i) && i < |s| && s[i].Free?
    ensures MovedTo(s, t, i + 1)
  {
    assert s[..i + 1] == s[..i] + [s[i]];
    assert Entries(s[..i + 1]) == Entries(s[..i]);
  }

  lemma EmptyTable(s: seq<Slot>)
    requires |s| > 0 && forall x :: 0 <= x < |s| ==> s[x].Free?
    ensures TableOK(s) && Count(s) == 0 && Entries(s) == {}
  {
    CountNone(s);
  }

  /** The larger table holds the same subsets. */
  lemma AllMoved(s: seq<Slot>, t: seq<Slot>, all: Fed, n: nat)
    requires TableOK(s) && TableOK(t) && MovedTo(s, t, |s|) && PartsOK(s, all, n)
    ensures PartsOK(t, all, n) && (PartsDisjoint(s) ==> PartsDisjoint(t))
    ensures forall id: nat :: Find(t, id) == Find(s, id)
  {
    assert s[..|s|] == s;
    forall id: nat ensures Find(t, id) == Find(s, id) {
      MovedFound(s, t, id);
    }
    forall x {:trigger t[x]} | 0 <= x < |t| && t[x].Entry? ensures FedOK(t[x].fed, n) {
      assert t[x] in Entries(t);
      var z := EntryAt(s, t[x]);
    }
    forall v: Valuation ensures InFed(v, all) <==> exists x: nat :: InSlot(v, t, x) {
      if exists x: nat :: InSlot(v, s, x) {
        MovedPoint(s, t, v);
      }
      if exists x: nat :: InSlot(v, t, x) {
        MovedPoint(t, s, v);
      }
    }
    if PartsDisjoint(s) {
      forall v: Valuation, x: nat, y: nat {:trigger InSlot(v, t, x), InSlot(v, t, y)} | InSlot(v, t, x) && InSlot(v, t, y) ensures x == y {
        assert t[x] in Entries(t) && t[y] in Entries(t);
        var a := EntryAt(s, t[x]);
        var b := EntryAt(s, t[y]);
        assert InSlot(v, s, a) && InSlot(v, s, b);
      }
    }
  }

  lemma MovedPoint(s: seq<Slot>, t: seq<Slot>, v: Valuation)
    requires Entries(s) == Entries(t) && exists x: nat :: InSlot(v, s, x)
    ensures exists y: nat :: InSlot(v, t, y)
  {
    var x: nat :| InSlot(v, s, x);
    assert s[x] in Entries(s);
    var y := EntryAt(t, s[x]);
    assert InSlot(v, t, y);
  }

  lemma MovedFound(s: seq<Slot>, t: seq<Slot>, id: nat)
    requires TableOK(s) && TableOK(t) && Entries(s) == Entries(t)
    ensures Find(t, id) == Find(s, id)
  {
    if x: nat :| Holds(s, x, id) {
      assert s[x] in Entries(s);
      var y := EntryAt(t, s[x]);
      FindIs(s, x, id);
      FindIs(t, y, id);
    } else {
      forall y: nat ensures !Holds(t, y, id) {
        if y < |t| && t[y].Entry? {
          assert t[y] in Entries(t);
          var x := EntryAt(s, t[y]);
          assert !Holds(s, x, id);
        }
      }
      FindsNothing(s, id);
      FindsNothing(t, id);
    }
  }
}
