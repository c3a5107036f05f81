/** Completion slots for the private DMA contexts of a device function: the analysis decides
  which contexts interfere, and the allocator colours them. */
module CompletionSlots {
  import opened Basics
  import opened ControlFlow
  import opened DmaCertificate
  import opened DmaCompletion
  import opened DmaModel
  import opened HeapSimulator

  datatype Plan = Plan(slots: map<string, nat>, slotCount: nat)

  function ContextChunks(names: seq<string>): (chunks: seq<Buffer>)
    ensures |chunks| == |names| && forall i :: 0 <= i < |names| ==> chunks[i] == Buffer(1, [], names[i])
  {
    seq(|names|, i requires 0 <= i < |names| => Buffer(1, [], names[i]))
  }

  function Interference(info: Info): Relation {
    (a, b) => info.Interferes(a, b)
  }

  /** On every run, at every moment, contexts that hold transfers hold them in different slots. */
  ghost predicate SlotsAreSafe(dev: Device, plan: Plan)
  {
    && (forall i :: 0 <= i < |dev.names| ==> dev.names[i] in plan.slots && plan.slots[dev.names[i]] < plan.slotCount)
    && (forall s, i: nat, j: nat ::
          Moment(dev, s) && i < |dev.names| && j < |dev.names| && i != j && s.Pending(i) && s.Pending(j) ==>
            plan.slots[dev.names[i]] != plan.slots[dev.names[j]])
  }

  lemma SlotsFromAllocation(dev: Device, info: Info, r: Result)
    requires dev.Valid() && SharingIsSafe(dev, info)
    requires IsAllocation(ContextChunks(dev.names), Callbacks(None, None, Some(Interference(info))), 0, r)
    ensures SlotsAreSafe(dev, Plan(r.offsets, r.heapSize))
  {
    hide IsAllocation, Moment;
    var chunks, cb := ContextChunks(dev.names), Callbacks(None, None, Some(Interference(info)));
    forall i | 0 <= i < |dev.names|
      ensures dev.names[i] in r.offsets && r.offsets[dev.names[i]] < r.heapSize
    {
      SlotInHeap(chunks, cb, r, i);
    }
    forall s, i: nat, j: nat
      | Moment(dev, s) && i < |dev.names| && j < |dev.names| && i != j && s.Pending(i) && s.Pending(j)
      ensures r.offsets[dev.names[i]] != r.offsets[dev.names[j]]
    {
      assert info.Interferes(dev.names[i], dev.names[j]);
      assert {dev.names[i], dev.names[j]} == {dev.names[j], dev.names[i]};
      assert chunks[i] in chunks && chunks[j] in chunks;
      InterferingChunksAreApart(chunks, cb, 0, r, chunks[i], chunks[j]);
    }
  }

  ghost predicate EachHasItsOwn(dev: Device, plan: Plan)
  {
    forall i, j :: 0 <= i < j < |dev.names| ==>
      dev.names[i] in plan.slots && dev.names[j] in plan.slots && plan.slots[dev.names[i]] != plan.slots[dev.names[j]]
  }

  /** Contexts that all interfere all get slots of their own. */
  lemma AllSlotsDiffer(dev: Device, info: Info, r: Result)
    requires dev.Valid() && info.fallback != ""
    requires IsAllocation(ContextChunks(dev.names), Callbacks(None, None, Some(Interference(info))), 0, r)
    ensures EachHasItsOwn(dev, Plan(r.offsets, r.heapSize))
  {
    hide IsAllocation;
    var chunks, cb := ContextChunks(dev.names), Callbacks(None, None, Some(Interference(info)));
    forall i | 0 <= i < |dev.names| ensures dev.names[i] in r.offsets {
      SlotInHeap(chunks, cb, r, i);
    }
    forall i, j | 0 <= i < j < |dev.names| ensures r.offsets[dev.names[i]] != r.offsets[dev.names[j]] {
      assert chunks[i] in chunks && chunks[j] in chunks;
      InterferingChunksAreApart(chunks, cb, 0, r, chunks[i], chunks[j]);
    }
  }

  /** Some context with a name before `dev.names[i]` interferes with it and holds `slot`. */
  ghost predicate IsTaken(dev: Device, info: Info, plan: Plan, i: nat, slot: nat)
    requires i < |dev.names|
  {
    exists j, k: nat :: 0 <= j < |dev.names| && DiffersAt(dev.names[j], dev.names[i], k) && dev.names[j] in plan.slots
      && plan.slots[dev.names[j]] == slot && info.Interferes(dev.names[j], dev.names[i])
  }

  /** In the order of their names, every context has the least slot not taken by one it interferes with, and
    there are no more slots than that. */
  ghost predicate SlotsAreLeast(dev: Device, info: Info, plan: Plan)
  {
    && (forall i, slot: nat :: 0 <= i < |dev.names| && dev.names[i] in plan.slots && slot < plan.slots[dev.names[i]] ==>
          IsTaken(dev, info, plan, i, slot))
    && (plan.slotCount == 0 ||
        exists i :: 0 <= i < |dev.names| && dev.names[i] in plan.slots
                    && plan.slots[dev.names[i]] + 1 == plan.slotCount)
  }

  lemma SlotIsLeast(dev: Device, info: Info, r: Result, i: nat, slot: nat)
    requires dev.Valid() && i < |dev.names|
    requires IsAllocation(ContextChunks(dev.names), Callbacks(None, None, Some(Interference(info))), 0, r)
    requires dev.names[i] in r.offsets && slot < r.offsets[dev.names[i]]
    ensures IsTaken(dev, info, Plan(r.offsets, r.heapSize), i, slot)
  {
    hide DiffersAt, HeapIsTight, PlacementOrder, Sum, AlignedSizes;
    var chunks, cb := ContextChunks(dev.names), Callbacks(None, None, Some(Interference(info)));
    var order := PlacementOrder(chunks);
    var at := Positions(order, r.offsets);
    OrderIsSorted(chunks);
    var p := OffsetOf(chunks, r, chunks[i]);
    assert BestFit(order, cb, 0, at, p);
    assert !ApartFromEarlier(order, cb, at, p, slot);
    var q :| 0 <= q < p && Interferes(cb, order[q], order[p]) && !Apart(slot, order[p].size, at[q], order[q].size);
    assert order[q] in order && order[p] in order;
    var j :| 0 <= j < |chunks| && chunks[j] == order[q];
    TiesGoByName(chunks, q, p);
    var k: nat :| DiffersAt(dev.names[j], dev.names[i], k);
    assert order[q].id in Ids(order);
    assert info.Interferes(dev.names[j], dev.names[i]);
  }

  lemma SlotsAreLeastOf(dev: Device, info: Info, r: Result)
    requires dev.Valid()
    requires IsAllocation(ContextChunks(dev.names), Callbacks(None, None, Some(Interference(info))), 0, r)
    ensures SlotsAreLeast(dev, info, Plan(r.offsets, r.heapSize))
  {
    hide IsAllocation, IsTaken;
    var chunks, cb := ContextChunks(dev.names), Callbacks(None, None, Some(Interference(info)));
    forall i, slot: nat | 0 <= i < |dev.names| && dev.names[i] in r.offsets && slot < r.offsets[dev.names[i]]
      ensures IsTaken(dev, info, Plan(r.offsets, r.heapSize), i, slot)
    {
      SlotIsLeast(dev, info, r, i, slot);
    }
    if r.heapSize != 0 {
      LastSlot(chunks, cb, r);
    }
  }

  lemma LastSlot(chunks: seq<Buffer>, cb: Callbacks, r: Result)
    requires UniqueIds(chunks) && IsAllocation(chunks, cb, 0, r) && r.heapSize != 0
    ensures exists i :: 0 <= i < |chunks| && chunks[i].id in r.offsets
              && r.offsets[chunks[i].id] + chunks[i].size == r.heapSize
  {
    hide BestFit, Interferes;
    var order := PlacementOrder(chunks);
    var at := Positions(order, r.offsets);
    OrderIsSorted(chunks);
    var top: nat :| Topped(order, at, top, |order|) && r.heapSize == AlignUp(top, 0);
    var k: nat :| EndsHeap(order, at, k, top);
    assert order[k] in order && order[k].id in Ids(order);
    var i :| 0 <= i < |chunks| && chunks[i] == order[k];
  }

  /** One slot is enough for contexts of which no two interfere. */
  lemma OneSlotSuffices(dev: Device, info: Info, plan: Plan)
    requires SlotsAreLeast(dev, info, plan)
    requires forall i, j :: 0 <= i < |dev.names| && 0 <= j < |dev.names| && i != j ==>
               !info.Interferes(dev.names[i], dev.names[j])
    ensures plan.slotCount <= 1
  {
    forall i | 0 <= i < |dev.names| && dev.names[i] in plan.slots
      ensures plan.slots[dev.names[i]] == 0
    {
      assert !IsTaken(dev, info, plan, i, 0);
    }
  }

  lemma SlotInHeap(chunks: seq<Buffer>, cb: Callbacks, r: Result, i: nat)
    requires UniqueIds(chunks) && IsAllocation(chunks, cb, 0, r) && i < |chunks| && chunks[i].size > 0
    ensures chunks[i].id in r.offsets && r.offsets[chunks[i].id] < r.heapSize
  {
    hide BestFit, Interferes;
    var k := OffsetOf(chunks, r, chunks[i]);
  }

  /** Analyses the device function and assigns slots, unless the analysis has no model of it. */
  method AllocateCompletions(dev: Device)
    returns (plan: Option<Plan>, info: Info, ghost cfg: seq<Node>, ghost entry: nat)
    requires dev.Valid()
    ensures IsLookedAt(dev) ==> IsGraphOf(dev.Visible(), cfg, dev.root, entry)
    ensures info.analyzed <==> IsLookedAt(dev) && NoRunEscapes(dev) && !TooManyKeys(dev, cfg, entry)
    ensures info.analyzed ==> info.fallback == ""
    ensures IsLookedAt(dev) && !info.analyzed ==> info.fallback != "" && GaveUpRightly(dev, cfg, entry, info)
    ensures !IsLookedAt(dev) ==>
              !info.dedicatedFallback && (info.fallback == "" <==> Precheck(dev) == "" && !dev.participantLocal)
    ensures plan.Some? ==> SlotsAreSafe(dev, plan.value) && plan.value.slotCount <= |dev.names|
    ensures plan.Some? ==> SlotsAreLeast(dev, info, plan.value)
    ensures plan.None? <==> info.fallback != "" && !info.dedicatedFallback
    ensures plan.Some? && info.fallback != "" ==> EachHasItsOwn(dev, plan.value)
  {
    hide SlotsAreSafe, SlotsAreLeast, IsAllocation, SharingIsSafe, BestFit, AlignUp, AlignedSizes, UniqueIds,
         EachHasItsOwn, BoundHolds, FindingsAreExact, ConflictsAreExact, BuffersAreReported, RacesAreReal, NoRunEscapes,
         TooManyKeys, IsLookedAt, IsGraphOf, GaveUpRightly;
    info, cfg, entry := Analyze(dev);
    if info.fallback != "" && !info.dedicatedFallback {
      return None, info, cfg, entry;
    }
    var chunks := ContextChunks(dev.names);
    var r := AllocateInterference(chunks, Interference(info));
    SlotsFromAllocation(dev, info, r);
    SlotsAreLeastOf(dev, info, r);
    if info.fallback != "" { AllSlotsDiffer(dev, info, r); }
    UnalignedSizes(chunks);
    SumOfOnes(Sizes(chunks));
    plan := Some(Plan(r.offsets, r.heapSize));
  }

  lemma {:induction false} SumOfOnes(sizes: seq<nat>)
    requires forall k :: 0 <= k < |sizes| ==> sizes[k] == 1
    ensures Sum(sizes) == |sizes|
    decreases |sizes|
  {
    if sizes != [] {
      SumOfOnes(sizes[..|sizes| - 1]);
    }
  }
}
