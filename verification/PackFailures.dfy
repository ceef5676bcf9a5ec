/** Exactly which draws of internal/packlab/engine.go never fail, over all seeds. A draw reads its random stream from
    left to right, so a stream that succeeds up to some place can be changed there to hit whatever can go wrong. */
module PackFailures {
  import opened Wrappers
  import opened WeightedIndex
  import opened PackDraw
  import opened IllegalDraw
  import opened PackEngine

  // ---------------------------------------------------------------- a draw reads nothing beyond where it stops

  lemma SlotIsLocal(source: nat -> nat, other: nat -> nat, at: nat, slot: Slot)
    requires SlotDraw(source, at, slot).Ok? && Agree(source, other, SlotDraw(source, at, slot).value.1)
    ensures SlotDraw(other, at, slot) == SlotDraw(source, at, slot) && SlotDraw(source, at, slot).value.1 >= at
  {
    var pools := PositivePools(slot.pools);
    var (p, mid) := PickOf(source, at, PoolWeights(pools));
    PickIsLocal(source, other, mid, CardWeights(PositiveCards(pools[p].cards)));
    PickIsLocal(source, other, at, PoolWeights(pools));
  }

  lemma {:induction false} SlotsAreLocal(source: nat -> nat, other: nat -> nat, at: nat, slots: seq<Slot>,
      locks: seq<Lock>, i: nat)
    requires SlotsDraw(source, at, slots, locks, i).Ok?
    requires Agree(source, other, SlotsDraw(source, at, slots, locks, i).value.1)
    ensures SlotsDraw(other, at, slots, locks, i) == SlotsDraw(source, at, slots, locks, i)
    ensures SlotsDraw(source, at, slots, locks, i).value.1 >= at
    decreases |slots| - i
  {
    hide SlotDraw;
    if i < |slots| {
      if Locked(locks, i) {
        SlotsAreLocal(source, other, at, slots, locks, i + 1);
      } else {
        var mid := SlotDraw(source, at, slots[i]).value.1;
        SlotsAreLocal(source, other, mid, slots, locks, i + 1);
        SlotIsLocal(source, other, at, slots[i]);
      }
    }
  }

  lemma TableModeIsLocal(source: nat -> nat, other: nat -> nat, at: nat, pack: Pack, kind: string, locks: seq<Lock>)
    requires TableModeDraw(source, at, pack, kind, locks).Ok?
    requires Agree(source, other, TableModeDraw(source, at, pack, kind, locks).value.1)
    ensures TableModeDraw(other, at, pack, kind, locks) == TableModeDraw(source, at, pack, kind, locks)
    ensures TableModeDraw(source, at, pack, kind, locks).value.1 >= at
  {
    if !FullyLocked(locks) {
      SlotsAreLocal(source, other, at, KindTables(pack.tables, kind)[0].slots, locks, 0);
    }
  }

  // ---------------------------------------------------------------- what can fail does for some stream

  lemma SlotCanFail(source: nat -> nat, at: nat, slot: Slot) returns (other: nat -> nat)
    requires !SlotDrawable(slot)
    ensures Agree(source, other, at) && SlotDraw(other, at, slot).Err?
  {
    other := source;
    var pools := PositivePools(slot.pools);
    if pools != [] {
      var p :| Reachable(PoolWeights(pools), p) && PositiveCards(pools[p].cards) == [];
      other := SteerPick(source, at, PoolWeights(pools), p);
    }
  }

  lemma {:induction false} SlotsCanFail(source: nat -> nat, at: nat, slots: seq<Slot>, locks: seq<Lock>, i: nat)
    returns (other: nat -> nat)
    requires !SlotsDrawable(slots, locks, i)
    ensures Agree(source, other, at) && SlotsDraw(other, at, slots, locks, i).Err?
    decreases |slots| - i
  {
    hide SlotDraw, SlotDrawable;
    if Locked(locks, i) {
      other := SlotsCanFail(source, at, slots, locks, i + 1);
    } else if !SlotDrawable(slots[i]) {
      other := SlotCanFail(source, at, slots[i]);
    } else {
      SlotDrawFits(source, at, slots[i]);
      SlotIsLocal(source, source, at, slots[i]);
      other := SlotsCanFail(source, SlotDraw(source, at, slots[i]).value.1, slots, locks, i + 1);
      SlotIsLocal(source, other, at, slots[i]);
    }
  }

  lemma OfficialCanFail(source: nat -> nat, at: nat, pack: Pack) returns (other: nat -> nat)
    requires !OfficialDrawable(pack)
    ensures Agree(source, other, at) && OfficialDraw(other, at, pack).Err?
  {
    hide SlotsDraw, SlotsDrawable;
    other := source;
    var tables := PositiveTables(pack.tables);
    if tables != [] {
      var t :| Reachable(TableWeights(tables), t) && !SlotsDrawable(tables[t].slots, [], 0);
      var steered := SteerPick(source, at, TableWeights(tables), t);
      var mid := PickOf(steered, at, TableWeights(tables)).1;
      PickIsLocal(steered, steered, at, TableWeights(tables));
      other := SlotsCanFail(steered, mid, tables[t].slots, [], 0);
      PickIsLocal(steered, other, at, TableWeights(tables));
    }
  }

  lemma TableModeCanFail(source: nat -> nat, at: nat, pack: Pack, kind: string, locks: seq<Lock>)
    returns (other: nat -> nat)
    requires !TableModeDrawable(pack, kind, locks)
    ensures Agree(source, other, at) && TableModeDraw(other, at, pack, kind, locks).Err?
  {
    other := source;
    var tables := KindTables(pack.tables, kind);
    if tables != [] {
      other := SlotsCanFail(source, at, tables[0].slots, locks, 0);
    }
  }

  lemma {:induction false} BoostersCanFail(source: nat -> nat, at: nat, catalog: Catalog, pack: Pack, rule: Rule,
      index: nat, count: nat)
    returns (other: nat -> nat)
    requires Loaded(catalog) && pack.id in catalog.packs && catalog.packs[pack.id] == pack
    requires index <= count && !AllDrawable(catalog, pack, rule, index, count)
    ensures Agree(source, other, at) && Boosters(other, at, catalog, pack, rule, index, count).Err?
    decreases count - index
  {
    hide EffectiveMode, Loaded, Fits, OfficialDraw, TableModeDraw, RarityDraw, PoolDraw, ConfiguredOutput,
         OfficialDrawable, TableModeDrawable, RarityDrawable, PoolSuffices;
    var mode, locks := EffectiveMode(pack, rule), ConfiguredOutput(rule.outputs, index);
    other := source;
    if mode == "official" {
      other := OfficialCanFail(source, at, pack);
    } else if mode != "table" {
      BoostersFit(source, at, catalog, pack, rule, index, count);
    } else if !TableModeDrawable(pack, rule.tableKind, locks) {
      other := TableModeCanFail(source, at, pack, rule.tableKind, locks);
    } else {
      TableModeFits(source, at, pack, rule.tableKind, locks);
      var after := TableModeDraw(source, at, pack, rule.tableKind, locks).value.1;
      TableModeIsLocal(source, source, at, pack, rule.tableKind, locks);
      other := BoostersCanFail(source, after, catalog, pack, rule, index + 1, count);
      TableModeIsLocal(source, other, at, pack, rule.tableKind, locks);
    }
  }

  /** A draw succeeds for every seed if and only if each of its boosters is drawable: every slot that is not locked
      and that a value can reach has a pool, and every pool that a value can choose has a card. */
  lemma NeverFailsExactly(catalog: Catalog, pack: Pack, rule: Rule, requested: nat)
    requires Loaded(catalog) && pack.id in catalog.packs && catalog.packs[pack.id] == pack && requested > 0
    ensures (forall source: nat -> nat :: Drawing(source, 0, catalog, pack, rule, requested).Ok?) <==>
            AllDrawable(catalog, pack, rule, 0, BoosterCount(EffectiveMode(pack, rule), rule, requested))
  {
    hide Boosters, AllDrawable, EffectiveMode, CardPool, Fits, Loaded;
    var count := BoosterCount(EffectiveMode(pack, rule), rule, requested);
    if AllDrawable(catalog, pack, rule, 0, count) {
      forall source: nat -> nat ensures Drawing(source, 0, catalog, pack, rule, requested).Ok? {
        DrawingFits(source, 0, catalog, pack, rule, requested);
      }
    } else {
      var other := BoostersCanFail((_: nat) => 0, 0, catalog, pack, rule, 0, count);
      assert Drawing(other, 0, catalog, pack, rule, requested).Err?;
    }
  }
}
