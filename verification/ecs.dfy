/** The entity component system: entity slots, generation-checked handles and queries. */
module Ecs {

  const MAX_ENTITIES := 512

  datatype EntityState = Unused | PendingAdd | Active | PendingRemove

  type Mask = bv64

  /** ecs_entity_ref_t. */
  datatype Ref = Ref(entity: int, sequence: int)

  const NO_REF := Ref(-1, -1)

  /** The fields of ecs_t that entities live in. */
  datatype World = World(states: seq<EntityState>, sequences: seq<int>, masks: seq<Mask>, global: int)

  predicate Sized(w: World) {
    |w.states| == |w.sequences| == |w.masks| == MAX_ENTITIES
  }

  /** Sequence numbers were all issued: they are below the next one. */
  ghost predicate Valid(w: World) {
    && Sized(w) && w.global >= 1
    && forall i | 0 <= i < MAX_ENTITIES :: 0 <= w.sequences[i] < w.global
  }

  function Initial(): World {
    World(seq(MAX_ENTITIES, _ => Unused), seq(MAX_ENTITIES, _ => 0), seq(MAX_ENTITIES, _ => 0), 1)
  }

  // ---- Operations on values.

  /** ecs_is_entity_ref_valid. */
  predicate IsValid(w: World, ref: Ref, allowPendingAdd: bool)
    requires Sized(w) && ref.entity < MAX_ENTITIES
  {
    && ref.entity >= 0
    && w.sequences[ref.entity] == ref.sequence
    && (w.states[ref.entity] in {Active, PendingRemove} || (allowPendingAdd && w.states[ref.entity] == PendingAdd))
  }

  /** The first unused slot from i on. */
  function FirstUnused(states: seq<EntityState>, i: nat): (r: nat)
    ensures i <= |states| ==> i <= r <= |states|
    ensures i <= r < |states| ==> states[r] == Unused
    ensures forall k | i <= k < r && k < |states| :: states[k] != Unused
    decreases |states| - i
  {
    if i >= |states| || states[i] == Unused then i else FirstUnused(states, i + 1)
  }

  function Added(w: World, mask: Mask): (World, Ref)
    requires Sized(w)
  {
    var i := FirstUnused(w.states, 0);
    if i == MAX_ENTITIES then (w, NO_REF)
    else (World(w.states[i := PendingAdd], w.sequences[i := w.global], w.masks[i := mask], w.global + 1),
          Ref(i, w.global))
  }

  function Removed(w: World, ref: Ref, allowPendingAdd: bool): World
    requires Sized(w) && ref.entity < MAX_ENTITIES
  {
    if IsValid(w, ref, allowPendingAdd) then w.(states := w.states[ref.entity := PendingRemove]) else w
  }

  function UpdatedState(s: EntityState): EntityState {
    if s == PendingAdd then Active else if s == PendingRemove then Unused else s
  }

  function Updated(w: World): World
    requires Sized(w)
  {
    w.(states := seq(MAX_ENTITIES, i requires 0 <= i < MAX_ENTITIES => UpdatedState(w.states[i])))
  }

  // ---- Runs.

  datatype Command = Add(mask: Mask) | Remove(ref: Ref, allowPendingAdd: bool) | Update

  ghost predicate CommandOk(c: Command) {
    c.Remove? ==> c.ref.entity < MAX_ENTITIES
  }

  function Do(w: World, c: Command): World
    requires Sized(w) && (c.Remove? ==> c.ref.entity < MAX_ENTITIES)
  {
    match c
    case Add(mask) => Added(w, mask).0
    case Remove(ref, allow) => Removed(w, ref, allow)
    case Update => Updated(w)
  }

  lemma DoValid(w: World, c: Command)
    requires Valid(w) && CommandOk(c)
    ensures Valid(Do(w, c)) && w.global <= Do(w, c).global
  {
  }

  lemma InitialValid()
    ensures Valid(Initial())
  {
  }

  /** The world after a run. */
  ghost function Run(w: World, cs: seq<Command>): (r: World)
    requires Valid(w) && forall c | c in cs :: CommandOk(c)
    ensures Valid(r) && w.global <= r.global
    decreases |cs|
  {
    if cs == [] then w
    else
      DoValid(w, cs[0]);
      Run(Do(w, cs[0]), cs[1..])
  }

  /** Handles that ecs_entity_add can have returned so far. */
  predicate Issued(w: World, ref: Ref) {
    ref == NO_REF || (0 <= ref.entity < MAX_ENTITIES && ref.sequence < w.global)
  }

  /** One operation never revives a handle that was issued. */
  lemma StaysInvalidStep(w: World, c: Command, ref: Ref)
    requires Valid(w) && CommandOk(c) && Issued(w, ref) && !IsValid(w, ref, true)
    ensures !IsValid(Do(w, c), ref, true) && Issued(Do(w, c), ref)
  {
  }

  /** Once invalid, invalid for the rest of every run, whoever reuses the slot. */
  lemma {:induction false} StaysInvalid(w: World, cs: seq<Command>, ref: Ref)
    requires Valid(w) && (forall c | c in cs :: CommandOk(c)) && Issued(w, ref) && !IsValid(w, ref, true)
    ensures !IsValid(Run(w, cs), ref, true)
    decreases |cs|
  {
    hide IsValid, Do;
    if cs != [] {
      DoValid(w, cs[0]);
      StaysInvalidStep(w, cs[0], ref);
      StaysInvalid(Do(w, cs[0]), cs[1..], ref);
    }
  }

  /** A handle dies exactly at the update after its removal. */
  lemma DiesWhen(w: World, c: Command, ref: Ref)
    requires Valid(w) && CommandOk(c) && ref.entity < MAX_ENTITIES && IsValid(w, ref, true)
    ensures IsValid(Do(w, c), ref, true) <==> !(c.Update? && w.states[ref.entity] == PendingRemove)
  {
  }

  /** A new handle is valid at once when additions that are pending count, and differs from every
      handle issued before. */
  lemma AddedIsNew(w: World, mask: Mask, ref: Ref)
    requires Valid(w)
    ensures var (w', r) := Added(w, mask);
      && (r == NO_REF <==> forall i | 0 <= i < MAX_ENTITIES :: w.states[i] != Unused)
      && (r != NO_REF ==> IsValid(w', r, true) && !IsValid(w', r, false) && Issued(w', r))
      && (Issued(w, ref) && ref != NO_REF ==> r != ref)
  {
  }

  /** Two handles of one run are the same only when both report that the slots ran out. */
  lemma HandlesUnique(w: World, mask: Mask, cs: seq<Command>, mask': Mask)
    requires Valid(w) && forall c | c in cs :: CommandOk(c)
    ensures Added(w, mask).1 != NO_REF && Valid(Added(w, mask).0) ==>
              Added(Run(Added(w, mask).0, cs), mask').1 != Added(w, mask).1
  {
    hide Run;
    var (w1, r1) := Added(w, mask);
    if r1 != NO_REF && Valid(w1) {
      AddedIsNew(w, mask, r1);
      IssuedKept(w1, cs, r1);
      AddedIsNew(Run(w1, cs), mask', r1);
    }
  }

  lemma IssuedKept(w: World, cs: seq<Command>, ref: Ref)
    requires Valid(w) && (forall c | c in cs :: CommandOk(c)) && Issued(w, ref)
    ensures Issued(Run(w, cs), ref)
  {
  }

  /** The handles that a run gets from ecs_entity_add, in order. */
  ghost function Handles(w: World, cs: seq<Command>): seq<Ref>
    requires Valid(w) && forall c | c in cs :: CommandOk(c)
    decreases |cs|
  {
    if cs == [] then []
    else
      DoValid(w, cs[0]);
      (if cs[0].Add? then [Added(w, cs[0].mask).1] else []) + Handles(Do(w, cs[0]), cs[1..])
  }

  /** Handles to come have sequence numbers to come. */
  lemma {:induction false} HandlesLater(w: World, cs: seq<Command>, ref: Ref)
    requires Valid(w) && (forall c | c in cs :: CommandOk(c)) && ref in Handles(w, cs)
    ensures ref == NO_REF || w.global <= ref.sequence
    decreases |cs|
  {
    hide Do;
    if cs != [] {
      DoValid(w, cs[0]);
      if cs[0].Add? && ref == Added(w, cs[0].mask).1 {
      } else {
        HandlesLater(Do(w, cs[0]), cs[1..], ref);
      }
    }
  }

  lemma {:induction false} HandlesDiffer(w: World, cs: seq<Command>, i: nat, j: nat)
    requires Valid(w) && (forall c | c in cs :: CommandOk(c)) && i < j < |Handles(w, cs)|
    ensures Handles(w, cs)[i] == Handles(w, cs)[j] ==> Handles(w, cs)[i] == NO_REF
    decreases |cs|
  {
    hide Added;
    DoValid(w, cs[0]);
    var rest := Handles(Do(w, cs[0]), cs[1..]);
    if !cs[0].Add? {
      HandlesDiffer(Do(w, cs[0]), cs[1..], i, j);
    } else if i > 0 {
      HandlesDiffer(Do(w, cs[0]), cs[1..], i - 1, j - 1);
    } else {
      assert rest[j - 1] in rest;
      HandlesLater(Do(w, cs[0]), cs[1..], rest[j - 1]);
      AddedBefore(w, cs[0].mask);
    }
  }

  lemma AddedBefore(w: World, mask: Mask)
    requires Valid(w)
    ensures var (w', r) := Added(w, mask); r == NO_REF || r.sequence < w'.global
  {
  }

  /** From the creation of the tables on, in every run no two handles are the same. */
  lemma RunHandles(cs: seq<Command>, i: nat, j: nat)
    requires forall c | c in cs :: CommandOk(c)
    ensures Valid(Initial())
    ensures i < j < |Handles(Initial(), cs)| && Handles(Initial(), cs)[i] == Handles(Initial(), cs)[j] ==>
              Handles(Initial(), cs)[i] == NO_REF
  {
    hide Handles;
    InitialValid();
    if i < j < |Handles(Initial(), cs)| {
      HandlesDiffer(Initial(), cs, i, j);
    }
  }

  /** Between updates an entity becomes visible to queries in one way only: it is removed, by a caller
      that allows pending additions, while it is still pending. */
  lemma BecomesVisible(w: World, c: Command, mask: Mask, i: nat)
    requires Valid(w) && CommandOk(c) && !c.Update? && i < MAX_ENTITIES
    ensures Sized(Do(w, c))
    ensures Visible(Do(w, c), mask, i) && !Visible(w, mask, i) <==>
              c.Remove? && c.allowPendingAdd && c.ref == Ref(i, w.sequences[i]) && w.states[i] == PendingAdd
              && Covers(w.masks[i], mask)
  {
    hide Covers;
  }

  /** So removing an entity that is still pending makes it visible to queries until the next update. */
  lemma PendingRemovedIsVisible(w: World, mask: Mask)
    requires Valid(w) && Added(w, mask).1 != NO_REF
    ensures var (w1, r) := Added(w, mask);
            var w2 := Removed(w1, r, true);
            !IsValid(w1, r, false) && IsValid(w2, r, false) && Visible(w2, mask, r.entity)
            && !IsValid(Updated(w2), r, true)
  {
    var (w1, r) := Added(w, mask);
    var w2 := Removed(w1, r, true);
    assert w2.masks[r.entity] == mask;
    MaskOfItself(mask);
  }

  lemma MaskOfItself(mask: Mask)
    ensures Covers(mask, mask)
  {
  }

  // ---- Queries.

  /** The components asked for are among those of the entity. */
  predicate Covers(components: Mask, mask: Mask) { components & mask == mask }

  predicate Visible(w: World, mask: Mask, i: nat)
    requires Sized(w) && i < MAX_ENTITIES
  {
    Covers(w.masks[i], mask) && w.states[i] in {Active, PendingRemove}
  }

  /** The visible entities from slot i on. */
  ghost function VisibleFrom(w: World, mask: Mask, i: nat): seq<int>
    requires Sized(w)
    decreases MAX_ENTITIES - i
  {
    if i >= MAX_ENTITIES then []
    else if Visible(w, mask, i) then [i] + VisibleFrom(w, mask, i + 1)
    else VisibleFrom(w, mask, i + 1)
  }

  /** They come in increasing order, each once, and no other. */
  lemma {:induction false} VisibleFromExact(w: World, mask: Mask, i: nat)
    requires Sized(w)
    ensures var v := VisibleFrom(w, mask, i);
      && (forall j, k | 0 <= j < k < |v| :: v[j] < v[k])
      && (forall k: nat | k < MAX_ENTITIES :: k in v <==> i <= k && Visible(w, mask, k))
      && (forall k | k in v :: i <= k < MAX_ENTITIES)
    decreases MAX_ENTITIES - i
  {
    hide Visible;
    if i < MAX_ENTITIES {
      VisibleFromExact(w, mask, i + 1);
      var rest := VisibleFrom(w, mask, i + 1);
      if Visible(w, mask, i) {
        var v := VisibleFrom(w, mask, i);
        assert v == [i] + rest;
        forall j, k | 0 <= j < k < |v| ensures v[j] < v[k] {
          assert v[k] == rest[k - 1] && rest[k - 1] in rest;
        }
        forall k: nat | k < MAX_ENTITIES ensures k in v <==> i <= k && Visible(w, mask, k) {
          assert k in v <==> k == i || k in rest;
        }
      }
    }
  }

  // ---- The arrays.

  /** ecs_query_t. */
  class Query {
    const mask: Mask
    var entity: int

    constructor (mask: Mask)
      ensures this.mask == mask && entity == -1
    {
      this.mask, entity := mask, -1;
    }
  }

  /** ecs_t. */
  class EcsTables {
    var global: int
    const sequences: array<int>
    const states: array<EntityState>
    const masks: array<Mask>

    ghost function State(): World
      reads this, sequences, states, masks
    {
      World(states[..], sequences[..], masks[..], global)
    }

    ghost predicate Ok()
      reads this
    {
      && states.Length == sequences.Length == masks.Length == MAX_ENTITIES
      && states as object != sequences && states as object != masks && sequences as object != masks
    }

    /** ecs_create. */
    constructor ()
      ensures Ok() && State() == Initial() && fresh(sequences) && fresh(states) && fresh(masks)
    {
      global := 1;
      sequences := new int[MAX_ENTITIES](_ => 0);
      states := new EntityState[MAX_ENTITIES](_ => Unused);
      masks := new Mask[MAX_ENTITIES](_ => 0);
      new;
      assert states[..] == Initial().states;
      assert sequences[..] == Initial().sequences;
      assert masks[..] == Initial().masks;
    }

    /** ecs_update. */
    method Update()
      requires Ok()
      modifies states
      ensures Ok() && State() == Updated(old(State()))
    {
      var i := 0;
      while i < states.Length
        invariant 0 <= i <= states.Length
        invariant forall k :: 0 <= k < states.Length ==>
          states[k] == if k < i then UpdatedState(old(states[k])) else old(states[k])
      {
        if states[i] == PendingAdd {
          states[i] := Active;
        } else if states[i] == PendingRemove {
          states[i] := Unused;
        }
        i := i + 1;
      }
      assert states[..] == Updated(old(State())).states;
    }

    /** ecs_entity_add. */
    method Add(mask: Mask) returns (ref: Ref)
      requires Ok()
      modifies this`global, states, sequences, masks
      ensures Ok() && (State(), ref) == Added(old(State()), mask)
    {
      var i := 0;
      while i < states.Length
        invariant 0 <= i <= states.Length
        invariant FirstUnused(states[..], 0) == FirstUnused(states[..], i)
      {
        if states[i] == Unused {
          ghost var w := State();
          states[i] := PendingAdd;
          sequences[i] := global;
          global := global + 1;
          masks[i] := mask;
          assert states[..] == w.states[i := PendingAdd];
          assert sequences[..] == w.sequences[i := w.global];
          assert masks[..] == w.masks[i := mask];
          return Ref(i, sequences[i]);
        }
        i := i + 1;
      }
      return NO_REF;
    }

    /** ecs_is_entity_ref_valid. */
    method IsRefValid(ref: Ref, allowPendingAdd: bool) returns (b: bool)
      requires Ok() && ref.entity < MAX_ENTITIES
      ensures b == IsValid(State(), ref, allowPendingAdd)
    {
      b := ref.entity >= 0 && sequences[ref.entity] == ref.sequence
        && AtLeast(states[ref.entity], if allowPendingAdd then PendingAdd else Active);
    }

    /** ecs_entity_remove. */
    method Remove(ref: Ref, allowPendingAdd: bool)
      requires Ok() && ref.entity < MAX_ENTITIES
      modifies states
      ensures Ok() && State() == Removed(old(State()), ref, allowPendingAdd)
    {
      var valid := IsRefValid(ref, allowPendingAdd);
      if valid {
        states[ref.entity] := PendingRemove;
        assert states[..] == old(states[..])[ref.entity := PendingRemove];
      }
    }

    /** ecs_query_next: on to the next visible entity, -1 when there is none. */
    method Next(query: Query)
      requires Ok() && -1 <= query.entity
      modifies query
      ensures -1 <= query.entity
      ensures var rest := VisibleFrom(State(), query.mask, (old(query.entity) + 1) as nat);
              query.entity == if rest == [] then -1 else rest[0]
    {
      hide Visible, Updated, Added, Covers;
      var i: nat := query.entity + 1;
      ghost var start: nat := i;
      ghost var w := State();
      while i < masks.Length
        invariant start <= i && Sized(w) && w == State()
        invariant VisibleFrom(w, query.mask, start) == VisibleFrom(w, query.mask, i)
        invariant query.entity == old(query.entity)
      {
        IsVisible(w, query.mask, i);
        if Covers(masks[i], query.mask) && AtLeast(states[i], Active) {
          query.entity := i;
          return;
        }
        i := i + 1;
      }
      query.entity := -1;
    }

    /** A query loop over a fixed state: what it visits, in order. */
    method Visit(mask: Mask) returns (visited: seq<int>)
      requires Ok()
      ensures visited == VisibleFrom(State(), mask, 0)
    {
      hide VisibleFrom;
      visited := [];
      var query := new Query(mask);
      ghost var w := State();
      Next(query);
      ghost var from: nat := 0;
      while query.entity >= 0
        invariant -1 <= query.entity && query.mask == mask && fresh(query)
        invariant from <= MAX_ENTITIES && Sized(w) && w == State()
        invariant VisibleFrom(w, mask, 0) == visited + VisibleFrom(w, mask, from)
        invariant query.entity == var rest := VisibleFrom(w, mask, from); if rest == [] then -1 else rest[0]
        decreases MAX_ENTITIES - from
      {
        var e := query.entity;
        VisibleStep(w, mask, from);
        from := e + 1;
        visited := visited + [e];
        Next(query);
      }
      NoneVisible(w, mask, from);
    }
  }

  function Rank(s: EntityState): nat {
    match s case Unused => 0 case PendingAdd => 1 case Active => 2 case PendingRemove => 3
  }

  predicate AtLeast(s: EntityState, t: EntityState) { Rank(s) >= Rank(t) }

  lemma IsVisible(w: World, mask: Mask, i: nat)
    requires Sized(w) && i < MAX_ENTITIES
    ensures Visible(w, mask, i) <==> Covers(w.masks[i], mask) && AtLeast(w.states[i], Active)
  {
    hide Covers;
  }

  lemma {:induction false} VisibleStep(w: World, mask: Mask, i: nat)
    requires Sized(w) && VisibleFrom(w, mask, i) != []
    ensures var v := VisibleFrom(w, mask, i);
            i <= v[0] < MAX_ENTITIES && v == [v[0]] + VisibleFrom(w, mask, (v[0] + 1) as nat)
    decreases MAX_ENTITIES - i
  {
    hide Visible;
    if i < MAX_ENTITIES && !Visible(w, mask, i) {
      VisibleStep(w, mask, i + 1);
    }
  }

  lemma NoneVisible(w: World, mask: Mask, i: nat)
    requires Sized(w)
    ensures VisibleFrom(w, mask, i) == [] || 0 <= VisibleFrom(w, mask, i)[0]
  {
    if VisibleFrom(w, mask, i) != [] {
      VisibleStep(w, mask, i);
    }
  }

  // ---- What a mask selects.

  predicate Has(components: Mask, k: bv6) { (components >> k) & 1 == 1 }

  /** The mask of component k. */
  function ComponentMask(k: bv6): Mask { (1 as Mask) << k }

  /** A mask of one component selects the entities that have it; two masks together select those that both
      select; and no components at all are asked of everybody. */
  lemma MaskSelects(components: Mask, mask: Mask, other: Mask, k: bv6)
    ensures Covers(components, ComponentMask(k)) <==> Has(components, k)
    ensures Covers(components, mask | other) <==> Covers(components, mask) && Covers(components, other)
    ensures Covers(components, 0)
  {
    OneComponent(components, k);
    BothMasks(components, mask, other);
  }

  lemma OneComponent(components: Mask, k: bv6)
    ensures Covers(components, ComponentMask(k)) <==> Has(components, k)
  {
  }

  lemma BothMasks(components: Mask, mask: Mask, other: Mask)
    ensures Covers(components, mask | other) <==> Covers(components, mask) && Covers(components, other)
  {
    hide Covers;
    if Covers(components, mask | other) {
      MaskOfPart(components, mask, other);
      OtherPart(components, mask, other);
    }
    if Covers(components, mask) && Covers(components, other) {
      MaskOfParts(components, mask, other);
    }
  }

  lemma MaskOfPart(components: Mask, mask: Mask, other: Mask)
    requires Covers(components, mask | other)
    ensures Covers(components, mask)
  {
  }

  lemma OtherPart(components: Mask, mask: Mask, other: Mask)
    requires Covers(components, mask | other)
    ensures Covers(components, other)
  {
  }

  lemma MaskOfParts(components: Mask, mask: Mask, other: Mask)
    requires Covers(components, mask) && Covers(components, other)
    ensures Covers(components, mask | other)
  {
  }

  lemma VisibleIs(w: World, mask: Mask, i: nat)
    requires Sized(w) && i < MAX_ENTITIES
    ensures Visible(w, mask, i) <==> Covers(w.masks[i], mask) && w.states[i] in {Active, PendingRemove}
  {
    hide Covers;
  }

  /** So an entity is visible to a query for one more component if and only if it has that one, too. */
  lemma QueryOneMore(w: World, mask: Mask, k: bv6, i: nat)
    requires Sized(w) && i < MAX_ENTITIES
    ensures Visible(w, mask | ComponentMask(k), i) <==> Visible(w, mask, i) && Has(w.masks[i], k)
  {
    hide Covers, ComponentMask, Visible, Has;
    MaskSelects(w.masks[i], mask, ComponentMask(k), k);
    VisibleIs(w, mask, i);
    VisibleIs(w, mask | ComponentMask(k), i);
  }
}
