/**
 Ownership of detached objects, OrphanBuilder of c++/src/capnp/layout.h, together with the
 pointers of the message that adopt and disown them.  Builders are updated in place and may be
 assigned to themselves; the count of owners of each object is conserved all the same.
 */
module Orphan {
  import opened Basics

  /** Segments are numbered within their message. */
  datatype Segment = Segment(message: nat, id: nat)

  /** An object as an orphan refers to it.  The location is never null (0); for capabilities,
      which have none, it is 1. */
  datatype Object = Object(segment: Segment, location: nat, tag: nat)

  datatype Held = Nothing | Holding(it: Object)

  predicate ValidObject(o: Object) {
    o.location != 0
  }

  predicate ValidHeld(h: Held) {
    h.Holding? ==> ValidObject(h.it)
  }

  /** An object of another message than the one whose pointers are modelled, number 0. */
  predicate Foreign(h: Held) {
    h.Holding? && h.it.segment.message != 0
  }

  function AsSeq(h: Held): seq<Object> {
    if h.Holding? then [h.it] else []
  }

  // ---------------------------------------------------------------------------------------
  // Counting owners

  function One(h: Held, o: Object): nat {
    if h == Holding(o) then 1 else 0
  }

  /** How many hold `o`. */
  function Owners(hs: seq<Held>, o: Object): nat {
    if hs == [] then 0 else Owners(hs[..|hs| - 1], o) + One(hs[|hs| - 1], o)
  }

  /** How many times `o` occurs. */
  function Times(os: seq<Object>, o: Object): nat {
    multiset(os)[o]
  }

  lemma {:induction false} OwnersUpdate(hs: seq<Held>, i: nat, h: Held, o: Object)
    requires i < |hs|
    ensures Owners(hs[i := h], o) + One(hs[i], o) == Owners(hs, o) + One(h, o)
  {
    var n := |hs| - 1;
    if i == n {
      assert hs[i := h][..n] == hs[..n];
    } else {
      assert hs[i := h][..n] == hs[..n][i := h];
      OwnersUpdate(hs[..n], i, h, o);
    }
  }

  lemma OwnersAppend(hs: seq<Held>, h: Held, o: Object)
    ensures Owners(hs + [h], o) == Owners(hs, o) + One(h, o)
  {
    assert (hs + [h])[..|hs|] == hs;
  }

  lemma {:induction false} OwnersRemove(hs: seq<Held>, i: nat, o: Object)
    requires i < |hs|
    ensures Owners(hs[..i] + hs[i + 1..], o) + One(hs[i], o) == Owners(hs, o)
  {
    var n := |hs| - 1;
    var rest := hs[..i] + hs[i + 1..];
    if i == n {
      assert rest == hs[..n];
    } else {
      assert rest[..n - 1] == hs[..n][..i] + hs[..n][i + 1..];
      OwnersRemove(hs[..n], i, o);
    }
  }

  lemma {:induction false} OwnersHas(hs: seq<Held>, i: nat)
    requires i < |hs| && hs[i].Holding?
    ensures Owners(hs, hs[i].it) >= 1
  {
    if i == |hs| - 1 {
    } else {
      OwnersHas(hs[..|hs| - 1], i);
    }
  }

  /** Two owners count twice. */
  lemma OwnersHasTwo(hs: seq<Held>, i: nat, j: nat)
    requires i < j < |hs| && hs[i].Holding? && hs[i] == hs[j]
    ensures Owners(hs, hs[i].it) >= 2
  {
    OwnersUpdate(hs, i, Nothing, hs[i].it);
    OwnersHas(hs[i := Nothing], j);
  }

  lemma TimesAppend(os: seq<Object>, h: Held, o: Object)
    ensures Times(os + AsSeq(h), o) == Times(os, o) + One(h, o)
  {
  }

  // ---------------------------------------------------------------------------------------
  // Runs, by value

  /** What the builders hold, what the pointers of the message hold, what was zeroed out and
      what was ever made. */
  datatype State = State(held: seq<Held>, slots: seq<Held>, zeroed: seq<Object>, made: seq<Object>)

  datatype Op =
    | New
    | Make(o: Object)
    | MoveConstruct(i: nat)
    | MoveAssign(to: nat, from: nat)
    | Destroy(i: nat)
    | Adopt(slot: nat, i: nat)
    | Disown(slot: nat)
    | Clear(slot: nat)

  predicate Possible(s: State, op: Op) {
    match op
    case New => true
    case Make(o) => ValidObject(o)
    case MoveConstruct(i) => i < |s.held|
    case MoveAssign(to, from) => to < |s.held| && from < |s.held|
    case Destroy(i) => i < |s.held|
    case Adopt(slot, i) => slot < |s.slots| && i < |s.held|
    case Disown(slot) => slot < |s.slots|
    case Clear(slot) => slot < |s.slots|
  }

  function Step(s: State, op: Op): State
    requires Possible(s, op)
  {
    match op
    case New => s.(held := s.held + [Nothing])
    case Make(o) => s.(held := s.held + [Holding(o)], made := s.made + [o])
    case MoveConstruct(i) => s.(held := s.held[i := Nothing] + [s.held[i]])
    case MoveAssign(to, from) =>
      s.(held := (if to == from then s.held else s.held[to := s.held[from]])[from := Nothing],
         zeroed := s.zeroed + AsSeq(s.held[to]))
    case Destroy(i) => s.(held := s.held[..i] + s.held[i + 1..], zeroed := s.zeroed + AsSeq(s.held[i]))
    case Adopt(slot, i) =>
      if Foreign(s.held[i]) then s
      else s.(held := s.held[i := Nothing], slots := s.slots[slot := s.held[i]],
              zeroed := s.zeroed + AsSeq(s.slots[slot]))
    case Disown(slot) => s.(held := s.held + [s.slots[slot]], slots := s.slots[slot := Nothing])
    case Clear(slot) => s.(slots := s.slots[slot := Nothing], zeroed := s.zeroed + AsSeq(s.slots[slot]))
  }

  /** Every object is zeroed out or owned as many times as it was made. */
  ghost predicate Conserved(s: State) {
    forall o :: Balanced(s, o)
  }

  predicate Balanced(s: State, o: Object) {
    Times(s.made, o) == Times(s.zeroed, o) + Owners(s.held, o) + Owners(s.slots, o)
  }

  lemma StepBalances(s: State, op: Op, o: Object)
    requires Balanced(s, o) && Possible(s, op)
    ensures Balanced(Step(s, op), o)
  {
    hide Owners, Times, AsSeq, One;
    match op {
      case New =>
        OwnersAppend(s.held, Nothing, o);
        NothingOwned(o);
      case Make(m) =>
        OwnersAppend(s.held, Holding(m), o);
        TimesAppend(s.made, Holding(m), o);
        NothingOwned(m);
      case MoveConstruct(i) =>
        OwnersUpdate(s.held, i, Nothing, o);
        OwnersAppend(s.held[i := Nothing], s.held[i], o);
        NothingOwned(o);
      case MoveAssign(to, from) =>
        NothingOwned(o);
        TimesAppend(s.zeroed, s.held[to], o);
        if to == from {
          OwnersUpdate(s.held, to, Nothing, o);
        } else {
          OwnersUpdate(s.held, to, s.held[from], o);
          OwnersUpdate(s.held[to := s.held[from]], from, Nothing, o);
        }
      case Destroy(i) =>
        OwnersRemove(s.held, i, o);
        TimesAppend(s.zeroed, s.held[i], o);
      case Adopt(slot, i) =>
        if !Foreign(s.held[i]) {
          NothingOwned(o);
          OwnersUpdate(s.held, i, Nothing, o);
          OwnersUpdate(s.slots, slot, s.held[i], o);
          TimesAppend(s.zeroed, s.slots[slot], o);
        }
      case Disown(slot) =>
        NothingOwned(o);
        OwnersUpdate(s.slots, slot, Nothing, o);
        OwnersAppend(s.held, s.slots[slot], o);
      case Clear(slot) =>
        NothingOwned(o);
        OwnersUpdate(s.slots, slot, Nothing, o);
        TimesAppend(s.zeroed, s.slots[slot], o);
    }
  }

  lemma NothingOwned(o: Object)
    ensures One(Nothing, o) == 0 && AsSeq(Holding(o)) == [o]
  {
  }

  lemma StepConserves(s: State, op: Op)
    requires Conserved(s) && Possible(s, op)
    ensures Conserved(Step(s, op))
  {
    hide Step, Balanced;
    forall o
      ensures Balanced(Step(s, op), o)
    {
      StepBalances(s, op, o);
    }
  }

  ghost predicate Distinct(os: seq<Object>) {
    forall o :: Times(os, o) <= 1
  }

  /** When no object was made twice, none has two owners, none is zeroed out twice, and none
      that is zeroed out has an owner left. */
  lemma OwnedOnce(s: State)
    requires Conserved(s) && Distinct(s.made)
    ensures forall o :: Times(s.zeroed, o) + Owners(s.held, o) + Owners(s.slots, o) <= 1
    ensures forall i, j :: 0 <= i < j < |s.held| && s.held[i].Holding? ==> s.held[i] != s.held[j]
    ensures forall i, j :: 0 <= i < j < |s.slots| && s.slots[i].Holding? ==> s.slots[i] != s.slots[j]
    ensures forall i, j :: 0 <= i < |s.held| && 0 <= j < |s.slots| && s.held[i].Holding? ==> s.held[i] != s.slots[j]
  {
    hide Owners, Times;
    forall o
      ensures Times(s.zeroed, o) + Owners(s.held, o) + Owners(s.slots, o) <= 1
    {
      assert Balanced(s, o);
    }
    NotTwice(s.held);
    NotTwice(s.slots);
    forall i, j | 0 <= i < |s.held| && 0 <= j < |s.slots| && s.held[i].Holding?
      ensures s.held[i] != s.slots[j]
    {
      OwnersHas(s.held, i);
      if s.held[i] == s.slots[j] {
        OwnersHas(s.slots, j);
        assert false;
      }
    }
  }

  lemma NotTwice(hs: seq<Held>)
    requires forall o :: Owners(hs, o) <= 1
    ensures forall i, j :: 0 <= i < j < |hs| && hs[i].Holding? ==> hs[i] != hs[j]
  {
    hide Owners;
    forall i, j | 0 <= i < j < |hs| && hs[i].Holding?
      ensures hs[i] != hs[j]
    {
      if hs[i] == hs[j] {
        OwnersHasTwo(hs, i, j);
        assert false;
      }
    }
  }

  /** All calls that are possible, in order. */
  function Steps(s: State, ops: seq<Op>): State {
    if ops == [] then s
    else
      var before := Steps(s, ops[..|ops| - 1]);
      if Possible(before, ops[|ops| - 1]) then Step(before, ops[|ops| - 1]) else before
  }

  /** Every call that is possible takes effect, right after those before it. */
  lemma StepsStep(s: State, ops: seq<Op>, op: Op)
    ensures Steps(s, []) == s
    ensures Steps(s, ops + [op]) == if Possible(Steps(s, ops), op) then Step(Steps(s, ops), op) else Steps(s, ops)
  {
    hide Step, Possible;
    assert (ops + [op])[..|ops|] == ops;
  }

  /** The objects that the calls make. */
  function MadeBy(ops: seq<Op>): seq<Object> {
    if ops == [] then []
    else
      var last := ops[|ops| - 1];
      MadeBy(ops[..|ops| - 1]) + (if last.Make? && ValidObject(last.o) then [last.o] else [])
  }

  lemma {:induction false} MadeIs(s: State, ops: seq<Op>)
    ensures Steps(s, ops).made == s.made + MadeBy(ops)
  {
    if ops == [] {
      assert s.made + [] == s.made;
    } else {
      MadeIs(s, ops[..|ops| - 1]);
    }
  }

  lemma {:induction false} StepsConserve(s: State, ops: seq<Op>)
    requires Conserved(s)
    ensures Conserved(Steps(s, ops))
  {
    hide Conserved, Step;
    if ops == [] {
    } else {
      StepsConserve(s, ops[..|ops| - 1]);
      var before := Steps(s, ops[..|ops| - 1]);
      if Possible(before, ops[|ops| - 1]) {
        StepConserves(before, ops[|ops| - 1]);
      }
    }
  }

  // ---------------------------------------------------------------------------------------
  // The builders

  /** The objects that were zeroed out, in order. */
  class Zeroed {
    var objects: seq<Object>

    constructor ()
      ensures objects == []
    {
      objects := [];
    }
  }

  class OrphanBuilder {
    var segment: Option<Segment>
    var location: nat
    var tag: nat

    /** A builder that refers to an object also has its segment; one that has a segment only
        was disowned from a null pointer of the message. */
    ghost predicate Valid()
      reads this
    {
      (location != 0 ==> segment.Some?) && (location == 0 && segment.Some? ==> segment.value.message == 0)
    }

    /** A moved-from builder keeps its tag, but what it holds is decided by the location. */
    function Holds(): Held
      reads this
    {
      if location == 0 || segment.None? then Nothing else Holding(Object(segment.value, location, tag))
    }

    constructor ()
      ensures Valid() && Holds() == Nothing
    {
      segment, location, tag := None, 0, 0;
    }

    constructor Of(tag: nat, segment: Segment, location: nat)
      requires location == 0 ==> segment.message == 0
      ensures Valid() && Holds() == if location == 0 then Nothing else Holding(Object(segment, location, tag))
    {
      this.segment, this.location, this.tag := Some(segment), location, tag;
    }

    constructor Moved(other: OrphanBuilder)
      requires other.Valid()
      modifies other
      ensures Valid() && other.Valid()
      ensures Holds() == old(other.Holds()) && other.Holds() == Nothing
    {
      segment, location, tag := other.segment, other.location, other.tag;
      new;
      other.segment := None;
      other.location := 0;
    }

    method Euthanize(zeroed: Zeroed)
      modifies this, zeroed
      ensures Valid() && Holds() == Nothing && segment == None
      ensures zeroed.objects == old(zeroed.objects) + AsSeq(old(Holds()))
    {
      zeroed.objects := zeroed.objects + AsSeq(Holds());
      tag := 0;
      segment := None;
      location := 0;
    }

    /** The destructor. */
    method Destroy(zeroed: Zeroed)
      requires Valid()
      modifies this, zeroed
      ensures Valid() && zeroed.objects == old(zeroed.objects) + AsSeq(old(Holds()))
    {
      if segment.Some? {
        Euthanize(zeroed);
      }
    }

    /** Move assignment.  Assigning a builder to itself destroys what it holds. */
    method Assign(other: OrphanBuilder, zeroed: Zeroed)
      requires Valid() && other.Valid()
      modifies this, other, zeroed
      ensures Valid() && other.Valid()
      ensures zeroed.objects == old(zeroed.objects) + AsSeq(old(Holds()))
      ensures other.Holds() == Nothing
      ensures other != this ==> Holds() == old(other.Holds())
    {
      if segment.Some? {
        Euthanize(zeroed);
      }
      segment := other.segment;
      location := other.location;
      tag := other.tag;
      other.segment := None;
      other.location := 0;
    }
  }

  // ---------------------------------------------------------------------------------------
  // Runs, in place

  /** A program's live builders and the pointers of the message they belong to. */
  class Program {
    var builders: seq<OrphanBuilder>
    const slots: array<Held>
    const zeroed: Zeroed
    ghost var made: seq<Object>

    ghost predicate Valid()
      reads this, builders, slots, zeroed
    {
      (forall i, j :: 0 <= i < j < |builders| ==> builders[i] != builders[j])
      && (forall i :: 0 <= i < |builders| ==> builders[i].Valid())
      && (forall k :: 0 <= k < slots.Length ==> ValidHeld(slots[k]) && !Foreign(slots[k]))
    }

    ghost function View(): State
      reads this, builders, slots, zeroed
    {
      State(seq(|builders|, i requires 0 <= i < |builders| reads this, builders => builders[i].Holds()),
            slots[..], zeroed.objects, made)
    }

    constructor (pointers: nat)
      ensures Valid() && fresh(slots) && fresh(zeroed) && builders == []
      ensures View() == Start(pointers)
    {
      builders, made := [], [];
      slots := new Held[pointers](_ => Nothing);
      zeroed := new Zeroed();
    }

    method New()
      requires Valid() && Possible(View(), Op.New)
      modifies this, builders, slots, zeroed
      ensures Valid() && View() == Step(old(View()), Op.New)
      ensures |builders| == |old(builders)| + 1 && builders[..|old(builders)|] == old(builders)
      ensures builders[|old(builders)|].Holds() == Nothing
      ensures slots[..] == old(slots[..]) && zeroed.objects == old(zeroed.objects)
      ensures forall k :: 0 <= k < |old(builders)| ==> old(builders)[k].Holds() == old(builders[k].Holds())
      ensures forall i :: 0 <= i < |builders| ==> builders[i] in old(builders) || fresh(builders[i])
    {
      ghost var before := View();
      var b := new OrphanBuilder();
      builders := builders + [b];
      assert View().held == Step(before, Op.New).held;
    }

    method Make(o: Object)
      requires Valid() && Possible(View(), Op.Make(o))
      modifies this, builders, slots, zeroed
      ensures Valid() && View() == Step(old(View()), Op.Make(o))
      ensures |builders| == |old(builders)| + 1 && builders[..|old(builders)|] == old(builders)
      ensures builders[|old(builders)|].Holds() == Holding(o) && made == old(made) + [o]
      ensures slots[..] == old(slots[..]) && zeroed.objects == old(zeroed.objects)
      ensures forall k :: 0 <= k < |old(builders)| ==> old(builders)[k].Holds() == old(builders[k].Holds())
      ensures forall i :: 0 <= i < |builders| ==> builders[i] in old(builders) || fresh(builders[i])
    {
      ghost var before := View();
      var b := new OrphanBuilder.Of(o.tag, o.segment, o.location);
      builders := builders + [b];
      made := made + [o];
      assert View().held == Step(before, Op.Make(o)).held;
    }

    method MoveConstruct(i: nat)
      requires Valid() && Possible(View(), Op.MoveConstruct(i))
      modifies this, builders, slots, zeroed
      ensures Valid() && View() == Step(old(View()), Op.MoveConstruct(i))
      ensures |builders| == |old(builders)| + 1 && builders[..|old(builders)|] == old(builders)
      ensures builders[|old(builders)|].Holds() == old(builders[i].Holds()) && builders[i].Holds() == Nothing
      ensures slots[..] == old(slots[..]) && zeroed.objects == old(zeroed.objects)
      ensures forall k :: 0 <= k < |old(builders)| && k != i ==> old(builders)[k].Holds() == old(builders[k].Holds())
      ensures forall i :: 0 <= i < |builders| ==> builders[i] in old(builders) || fresh(builders[i])
    {
      ghost var before := View();
      var b := new OrphanBuilder.Moved(builders[i]);
      builders := builders + [b];
      assert View().held == Step(before, Op.MoveConstruct(i)).held;
    }

    /** A builder may be assigned to itself. */
    method MoveAssign(to: nat, from: nat)
      requires Valid() && Possible(View(), Op.MoveAssign(to, from))
      modifies this, builders, slots, zeroed
      ensures Valid() && View() == Step(old(View()), Op.MoveAssign(to, from))
      ensures builders == old(builders) && builders[from].Holds() == Nothing
      ensures to != from ==> builders[to].Holds() == old(builders[from].Holds())
      ensures slots[..] == old(slots[..]) && zeroed.objects == old(zeroed.objects) + AsSeq(old(builders[to].Holds()))
      ensures forall k :: 0 <= k < |old(builders)| && k != to && k != from ==>
                old(builders)[k].Holds() == old(builders[k].Holds())
      ensures forall i :: 0 <= i < |builders| ==> builders[i] in old(builders) || fresh(builders[i])
    {
      ghost var before := View();
      builders[to].Assign(builders[from], zeroed);
      assert View().held == Step(before, Op.MoveAssign(to, from)).held;
    }

    method Destroy(i: nat)
      requires Valid() && Possible(View(), Op.Destroy(i))
      modifies this, builders, slots, zeroed
      ensures Valid() && View() == Step(old(View()), Op.Destroy(i))
      ensures builders == old(builders)[..i] + old(builders)[i + 1..]
      ensures slots[..] == old(slots[..]) && zeroed.objects == old(zeroed.objects) + AsSeq(old(builders[i].Holds()))
      ensures forall k :: 0 <= k < |old(builders)| && k != i ==> old(builders)[k].Holds() == old(builders[k].Holds())
      ensures forall i :: 0 <= i < |builders| ==> builders[i] in old(builders) || fresh(builders[i])
    {
      ghost var before := View();
      builders[i].Destroy(zeroed);
      builders := builders[..i] + builders[i + 1..];
      assert View().held == Step(before, Op.Destroy(i)).held;
    }

    /** The pointer drops what it pointed to and takes over what the builder holds, unless that
        lives in another message. */
    method Adopt(slot: nat, i: nat) returns (ok: bool)
      requires Valid() && Possible(View(), Op.Adopt(slot, i))
      modifies this, builders, slots, zeroed
      ensures Valid() && View() == Step(old(View()), Op.Adopt(slot, i))
      ensures builders == old(builders)
      ensures ok ==> slots[..] == old(slots[..])[slot := old(builders[i].Holds())] && builders[i].Holds() == Nothing
      ensures ok ==> zeroed.objects == old(zeroed.objects) + AsSeq(old(slots[slot]))
      ensures !ok ==> slots[..] == old(slots[..]) && zeroed.objects == old(zeroed.objects)
      ensures !ok ==> builders[i].Holds() == old(builders[i].Holds())
      ensures forall k :: 0 <= k < |old(builders)| && k != i ==> old(builders)[k].Holds() == old(builders[k].Holds())
      ensures var h := old(builders[i].Holds()); ok <==> h.Nothing? || h.it.segment.message == 0
      ensures forall i :: 0 <= i < |builders| ==> builders[i] in old(builders) || fresh(builders[i])
    {
      hide AsSeq;
      ghost var before := View();
      var b := builders[i];
      ok := b.segment.None? || b.segment.value.message == 0;
      if !ok {
        return;
      }
      zeroed.objects := zeroed.objects + AsSeq(slots[slot]);
      slots[slot] := b.Holds();
      b.tag := 0;
      b.location := 0;
      b.segment := None;
      assert View().held == Step(before, Op.Adopt(slot, i)).held;
    }

    /** Disowning a null pointer gives a builder that has a segment but holds nothing. */
    method Disown(slot: nat)
      requires Valid() && Possible(View(), Op.Disown(slot))
      modifies this, builders, slots, zeroed
      ensures Valid() && View() == Step(old(View()), Op.Disown(slot))
      ensures |builders| == |old(builders)| + 1 && builders[..|old(builders)|] == old(builders)
      ensures builders[|old(builders)|].Holds() == old(slots[slot])
      ensures slots[..] == old(slots[..])[slot := Nothing] && zeroed.objects == old(zeroed.objects)
      ensures forall k :: 0 <= k < |old(builders)| ==> old(builders)[k].Holds() == old(builders[k].Holds())
      ensures forall i :: 0 <= i < |builders| ==> builders[i] in old(builders) || fresh(builders[i])
    {
      ghost var before := View();
      var h := slots[slot];
      var b;
      if h.Nothing? {
        b := new OrphanBuilder.Of(0, Segment(0, 0), 0);
      } else {
        b := new OrphanBuilder.Of(h.it.tag, h.it.segment, h.it.location);
      }
      builders := builders + [b];
      slots[slot] := Nothing;
      assert View().held == Step(before, Op.Disown(slot)).held;
    }

    method Clear(slot: nat)
      requires Valid() && Possible(View(), Op.Clear(slot))
      modifies this, builders, slots, zeroed
      ensures Valid() && View() == Step(old(View()), Op.Clear(slot))
      ensures builders == old(builders)
      ensures slots[..] == old(slots[..])[slot := Nothing]
      ensures zeroed.objects == old(zeroed.objects) + AsSeq(old(slots[slot])) && made == old(made)
      ensures forall k :: 0 <= k < |old(builders)| ==> old(builders)[k].Holds() == old(builders[k].Holds())
      ensures forall i :: 0 <= i < |builders| ==> builders[i] in old(builders) || fresh(builders[i])
    {
      ghost var before := View();
      zeroed.objects := zeroed.objects + AsSeq(slots[slot]);
      slots[slot] := Nothing;
      assert View().held == Step(before, Op.Clear(slot)).held;
    }

    /** Taking an object out and putting it back leaves the pointers as they were and destroys
        nothing. */
    method DisownAndAdopt(slot: nat)
      requires Valid() && slot < slots.Length
      modifies this, builders, slots, zeroed
      ensures Valid() && slots[..] == old(slots[..]) && zeroed.objects == old(zeroed.objects)
    {
      hide Step;
      Disown(slot);
      ghost var taken := builders[|builders| - 1].Holds();
      var ok := Adopt(slot, |builders| - 1);
      assert slots[..] == old(slots[..])[slot := taken];
    }

    /** Any run of calls. */
    method Run(ops: seq<Op>)
      requires Valid()
      modifies this, builders, slots, zeroed
      ensures Valid() && View() == Steps(old(View()), ops)
      ensures forall i :: 0 <= i < |builders| ==> builders[i] in old(builders) || fresh(builders[i])
    {
      hide Step;
      for n := 0 to |ops|
        invariant Valid() && View() == Steps(old(View()), ops[..n])
        invariant forall i :: 0 <= i < |builders| ==> builders[i] in old(builders) || fresh(builders[i])
      {
        assert ops[..n + 1][..n] == ops[..n];
        Call(ops[n]);
      }
      assert ops[..|ops|] == ops;
    }

    /** A call, if its arguments exist. */
    method Call(op: Op)
      requires Valid()
      modifies this, builders, slots, zeroed
      ensures Valid() && View() == if Possible(old(View()), op) then Step(old(View()), op) else old(View())
      ensures forall i :: 0 <= i < |builders| ==> builders[i] in old(builders) || fresh(builders[i])
    {
      hide Step;
      if op.New? {
        New();
      } else if op.Make? && ValidObject(op.o) {
        Make(op.o);
      } else if op.MoveConstruct? && op.i < |builders| {
        MoveConstruct(op.i);
      } else if op.MoveAssign? && op.to < |builders| && op.from < |builders| {
        MoveAssign(op.to, op.from);
      } else if op.Destroy? && op.i < |builders| {
        Destroy(op.i);
      } else if op.Adopt? && op.slot < slots.Length && op.i < |builders| {
        var ok := Adopt(op.slot, op.i);
      } else if op.Disown? && op.slot < slots.Length {
        Disown(op.slot);
      } else if op.Clear? && op.slot < slots.Length {
        Clear(op.slot);
      }
    }

    /** After any run, destroying the builders and clearing the pointers zeroes out each object
        exactly as many times as it was made. */
    method Finish()
      requires Valid() && Conserved(View())
      modifies this, builders, slots, zeroed
      ensures Valid() && builders == [] && made == old(made)
      ensures forall o :: Times(zeroed.objects, o) == Times(made, o)
    {
      hide Times, Owners, Step, Conserved;
      while builders != []
        invariant Valid() && Conserved(View()) && made == old(made)
        invariant forall i :: 0 <= i < |builders| ==> builders[i] in old(builders) || fresh(builders[i])
        decreases |builders|
      {
        StepConserves(View(), Op.Destroy(|builders| - 1));
        DestroyLast();
      }
      for k := 0 to slots.Length
        invariant Valid() && Conserved(View()) && made == old(made) && builders == []
        invariant forall j :: 0 <= j < k ==> slots[j] == Nothing
      {
        StepConserves(View(), Op.Clear(k));
        Clear(k);
      }
      AllZeroed(View());
    }

    method DestroyLast()
      requires Valid() && builders != []
      modifies this, builders, slots, zeroed
      ensures Valid() && View() == Step(old(View()), Op.Destroy(|old(builders)| - 1))
      ensures builders == old(builders)[..|old(builders)| - 1] && made == old(made)
    {
      Destroy(|builders| - 1);
    }
  }

  /** With no owners left everything made was zeroed out. */
  lemma AllZeroed(s: State)
    requires Conserved(s) && s.held == [] && forall k :: 0 <= k < |s.slots| ==> s.slots[k] == Nothing
    ensures forall o :: Times(s.zeroed, o) == Times(s.made, o)
  {
    hide Times, Owners;
    forall o
      ensures Times(s.zeroed, o) == Times(s.made, o)
    {
      assert Balanced(s, o);
      NoOwners(s.held, o);
      NoOwners(s.slots, o);
    }
  }

  /** From the first call to the last destructor, each object is zeroed out exactly as often as
      it was made: once, if it was made once. */
  method Lifetime(pointers: nat, ops: seq<Op>) returns (zeroed: seq<Object>)
    ensures forall o :: Times(zeroed, o) == Times(MadeBy(ops), o)
  {
    hide Times, Steps, Conserved, Owners;
    MadeIs(Start(pointers), ops);
    assert [] + MadeBy(ops) == MadeBy(ops);
    var p := new Program(pointers);
    StartConserved(pointers);
    p.Run(ops);
    StepsConserve(Start(pointers), ops);
    p.Finish();
    zeroed := p.zeroed.objects;
  }

  function Start(pointers: nat): State {
    State([], seq(pointers, _ => Nothing), [], [])
  }

  lemma StartConserved(pointers: nat)
    ensures Conserved(Start(pointers))
  {
    forall o
      ensures Balanced(Start(pointers), o)
    {
      NoOwners(Start(pointers).slots, o);
    }
  }

  lemma {:induction false} NoOwners(hs: seq<Held>, o: Object)
    requires forall i :: 0 <= i < |hs| ==> hs[i] == Nothing
    ensures Owners(hs, o) == 0
  {
    if hs == [] {
    } else {
      NoOwners(hs[..|hs| - 1], o);
    }
  }
}
