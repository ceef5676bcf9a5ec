/** Booster draws of internal/packlab/engine.go. */
module PackDraw {
  import opened Wrappers
  import opened WeightedIndex
  import opened Sorting

  datatype WeightedCard = WeightedCard(cardId: string, weight: int)

  datatype Pool = Pool(rarity: string, weight: int, cards: seq<WeightedCard>)

  datatype Slot = Slot(pools: seq<Pool>)

  datatype Table = Table(id: string, kind: string, weight: int, slots: seq<Slot>)

  datatype Pack = Pack(id: string, tables: seq<Table>)

  datatype Card = Card(id: string, rarity: int, kind: string, expansions: seq<string>)

  datatype Lock = Lock(cardId: string, locked: bool)

  datatype IllegalRule = IllegalRule(
    cardCount: int, allowDuplicates: bool, expansions: seq<string>, rarities: seq<int>, kinds: seq<string>)

  datatype Opening = Opening(tableId: string, cards: seq<string>)

  datatype Invalid =
    | NoTable | NoSlots | NoPool | NoCards | NotEnoughCards | LockOutsideRarity
    | EmptyPool | UnknownMode | NoSuchPack

  /** Codes of each rarity label, as catalogRarityCodes collects them. */
  type Codes = map<string, set<int>>

  // ---------------------------------------------------------------- filters

  /** The values a filter keeps, in their order. */
  function Kept<T(==,!new)>(values: seq<T>, keep: T -> bool): (kept: seq<T>)
    ensures forall v :: v in kept <==> v in values && keep(v)
  {
    if values == [] then [] else (if keep(values[0]) then [values[0]] else []) + Kept(values[1..], keep)
  }

  /** Each value is kept as often as it occurs, and at the place the values kept before it leave. */
  lemma {:induction false} KeptInPlace<T(!new)>(values: seq<T>, keep: T -> bool, i: nat)
    requires i < |values| && keep(values[i])
    ensures var k := |Kept(values[..i], keep)|; k < |Kept(values, keep)| && Kept(values, keep)[k] == values[i]
    ensures multiset(Kept(values, keep))[values[i]] == multiset(values)[values[i]]
  {
    KeptApart(values[..i], values[i..], keep);
    assert values == values[..i] + values[i..];
    SameCount(values, keep, values[i]);
  }

  lemma {:induction false} KeptApart<T(!new)>(front: seq<T>, back: seq<T>, keep: T -> bool)
    ensures Kept(front + back, keep) == Kept(front, keep) + Kept(back, keep)
  {
    if front == [] {
      assert front + back == back;
    } else {
      assert (front + back)[1..] == front[1..] + back;
      KeptApart(front[1..], back, keep);
    }
  }

  lemma {:induction false} NoneKept<T(!new)>(values: seq<T>, keep: T -> bool)
    requires forall v :: v in values ==> !keep(v)
    ensures Kept(values, keep) == []
  {
    if values != [] {
      NoneKept(values[1..], keep);
    }
  }

  lemma {:induction false} SameCount<T(!new)>(values: seq<T>, keep: T -> bool, v: T)
    requires keep(v)
    ensures multiset(Kept(values, keep))[v] == multiset(values)[v]
  {
    if values != [] {
      assert values == [values[0]] + values[1..];
      SameCount(values[1..], keep, v);
    }
  }

  function PositivePools(pools: seq<Pool>): (kept: seq<Pool>)
    ensures forall p :: p in kept <==> p in pools && p.weight > 0
  {
    Kept(pools, (p: Pool) => p.weight > 0)
  }

  function PositiveCards(cards: seq<WeightedCard>): (kept: seq<WeightedCard>)
    ensures forall c :: c in kept <==> c in cards && c.weight > 0
  {
    Kept(cards, (c: WeightedCard) => c.weight > 0)
  }

  function PositiveTables(tables: seq<Table>): (kept: seq<Table>)
    ensures forall t :: t in kept <==> t in tables && t.weight > 0
  {
    Kept(tables, (t: Table) => t.weight > 0)
  }

  function KindTables(tables: seq<Table>, kind: string): (kept: seq<Table>)
    ensures forall t :: t in kept <==> t in tables && t.kind == kind
  {
    Kept(tables, (t: Table) => t.kind == kind)
  }

  function SlottedTables(tables: seq<Table>): (kept: seq<Table>)
    ensures forall t :: t in kept <==> t in tables && t.slots != []
  {
    Kept(tables, (t: Table) => t.slots != [])
  }

  predicate Normal(table: Table) {
    table.kind == "normal" && table.slots != []
  }

  /** Normal tables with slots come first, and among them those of positive weight; a pack without any falls
      back to positive tables, then to all tables with slots. */
  function IllegalTables(pack: Pack): (tables: seq<Table>)
    ensures forall t :: t in tables ==> t in pack.tables
    ensures (exists t :: t in pack.tables && Normal(t)) ==> tables != [] && forall t :: t in tables ==> Normal(t)
    ensures (exists t :: t in pack.tables && Normal(t) && t.weight > 0) ==> forall t :: t in tables ==> t.weight > 0
    ensures (forall t :: t in pack.tables ==> !Normal(t)) && (exists t :: t in pack.tables && t.weight > 0)
            ==> tables == PositiveTables(pack.tables)
    ensures (forall t :: t in pack.tables ==> t.slots != []) ==> (tables == [] <==> pack.tables == [])
  {
    var normal := SlottedTables(KindTables(pack.tables, "normal"));
    assert forall t :: t in pack.tables && Normal(t) ==> t in normal;
    if PositiveTables(normal) != [] then PositiveTables(normal)
    else if normal != [] then
      assert forall t :: t in normal && t.weight > 0 ==> t in PositiveTables(normal);
      normal
    else if PositiveTables(pack.tables) != [] then PositiveTables(pack.tables)
    else
      assert forall t :: t in pack.tables && t.weight > 0 ==> t in PositiveTables(pack.tables);
      assert forall t :: t in pack.tables && t.slots != [] ==> t in SlottedTables(pack.tables);
      assert pack.tables != [] ==> pack.tables[0] in pack.tables;
      SlottedTables(pack.tables)
  }

  // ---------------------------------------------------------------- draws as functions of the seed

  /** What a draw yields and the place in the random stream after it. */
  type Draws<T> = Result<(seq<T>, nat), Invalid>

  function Ahead<T>(front: seq<T>, rest: Draws<T>): Draws<T> {
    if rest.Ok? then Ok((front + rest.value.0, rest.value.1)) else rest
  }

  lemma AheadTwice<T>(a: seq<T>, b: seq<T>, rest: Draws<T>)
    ensures Ahead(a, Ahead(b, rest)) == Ahead(a + b, rest)
  {
    if rest.Ok? {
      assert a + (b + rest.value.0) == (a + b) + rest.value.0;
    }
  }

  lemma AheadNothing<T>(front: seq<T>, rest: Draws<T>, at: nat)
    ensures Ahead([], rest) == rest && Ahead(front, Ok(([], at))) == Ok((front, at))
  {
    if rest.Ok? {
      assert [] + rest.value.0 == rest.value.0;
    }
    assert front + [] == front;
  }

  function PoolWeights(pools: seq<Pool>): seq<int> {
    seq(|pools|, i requires 0 <= i < |pools| => pools[i].weight)
  }

  function CardWeights(cards: seq<WeightedCard>): seq<int> {
    seq(|cards|, i requires 0 <= i < |cards| => cards[i].weight)
  }

  function TableWeights(tables: seq<Table>): seq<int> {
    seq(|tables|, i requires 0 <= i < |tables| => tables[i].weight)
  }

  /** A pool by its weight, then a card of it by its weight. */
  ghost function SlotDraw(source: nat -> nat, at: nat, slot: Slot): Result<(string, nat), Invalid> {
    var pools := PositivePools(slot.pools);
    if pools == [] then Err(NoPool) else
      var (p, mid) := PickOf(source, at, PoolWeights(pools));
      var cards := PositiveCards(pools[p].cards);
      if cards == [] then Err(NoCards) else
        var (c, after) := PickOf(source, mid, CardWeights(cards));
        Ok((cards[c].cardId, after))
  }

  /** The cards of the slots from `i` on. */
  ghost function SlotsDraw(source: nat -> nat, at: nat, slots: seq<Slot>, locks: seq<Lock>, i: nat): Draws<string>
    decreases |slots| - i
  {
    if i >= |slots| then Ok(([], at))
    else if Locked(locks, i) then Ahead([locks[i].cardId], SlotsDraw(source, at, slots, locks, i + 1))
    else
      var slot := SlotDraw(source, at, slots[i]);
      if slot.Err? then Err(slot.error) else Ahead([slot.value.0], SlotsDraw(source, slot.value.1, slots, locks, i + 1))
  }

  ghost function RarityCards(source: nat -> nat, at: nat, cards: seq<string>, slots: nat, locks: seq<Lock>, i: nat)
    : Draws<string>
    requires cards != []
    decreases slots - i
  {
    if i >= slots then Ok(([], at))
    else if Locked(locks, i) then
      if locks[i].cardId !in cards then Err(LockOutsideRarity)
      else Ahead([locks[i].cardId], RarityCards(source, at, cards, slots, locks, i + 1))
    else Ahead([cards[source(at) % |cards|]], RarityCards(source, at + 1, cards, slots, locks, i + 1))
  }

  /** The booster with these cards. */
  function Booster(tableId: string, cards: Draws<string>): Result<(Opening, nat), Invalid> {
    if cards.Ok? then Ok((Opening(tableId, cards.value.0), cards.value.1)) else Err(cards.error)
  }

  ghost function TableDraw(source: nat -> nat, at: nat, table: Table, locks: seq<Lock>): Result<(Opening, nat), Invalid>
  {
    Booster(table.id, SlotsDraw(source, at, table.slots, locks, 0))
  }

  ghost function OfficialDraw(source: nat -> nat, at: nat, pack: Pack): Result<(Opening, nat), Invalid> {
    var tables := PositiveTables(pack.tables);
    if tables == [] then Err(NoTable) else
      var (t, mid) := PickOf(source, at, TableWeights(tables));
      TableDraw(source, mid, tables[t], [])
  }

  /** Five locked cards on a first table with another number of slots: its own slots do not matter. */
  ghost function TableModeDraw(source: nat -> nat, at: nat, pack: Pack, kind: string, locks: seq<Lock>)
    : Result<(Opening, nat), Invalid>
  {
    var tables := KindTables(pack.tables, kind);
    if tables == [] then Err(NoTable)
    else if FullyLocked(locks) then Ok((Opening(tables[0].id, LockedCards(locks)), at))
    else TableDraw(source, at, tables[0], locks)
  }

  ghost function RarityDraw(source: nat -> nat, at: nat, pack: Pack, rarity: string, locks: seq<Lock>)
    : Result<(Opening, nat), Invalid>
  {
    var cards, tables := SortedList(CardsForRarity(pack, rarity)), PositiveTables(pack.tables);
    if cards == [] then Err(NoCards)
    else if tables == [] then Err(NoTable)
    else Booster(tables[0].id, RarityCards(source, at, cards, |tables[0].slots|, locks, 0))
  }

  /** A method returned what the seed determines, and stands at the right place of the stream. */
  predicate Follows(r: Result<Opening, Invalid>, next: nat, spec: Result<(Opening, nat), Invalid>) {
    if spec.Ok? then r == Ok(spec.value.0) && next == spec.value.1 else r == Err(spec.error)
  }

  // ---------------------------------------------------------------- table draws

  predicate Locked(locks: seq<Lock>, i: nat) {
    i < |locks| && locks[i].locked && locks[i].cardId != ""
  }

  /** A card of positive weight in a pool of positive weight of the slot. */
  predicate SlotCard(slot: Slot, id: string) {
    exists p, c :: p in slot.pools && p.weight > 0 && c in p.cards && c.weight > 0 && c.cardId == id
  }

  /** Every pool of the slot that a value can choose has a card to draw. */
  ghost predicate SlotDrawable(slot: Slot) {
    var pools := PositivePools(slot.pools);
    pools != [] && forall p :: Reachable(PoolWeights(pools), p) ==> PositiveCards(pools[p].cards) != []
  }

  ghost predicate SlotsDrawable(slots: seq<Slot>, locks: seq<Lock>, i: nat) {
    forall k :: i <= k < |slots| ==> Locked(locks, k) || SlotDrawable(slots[k])
  }

  ghost predicate OfficialDrawable(pack: Pack) {
    var tables := PositiveTables(pack.tables);
    tables != [] && forall t :: Reachable(TableWeights(tables), t) ==> SlotsDrawable(tables[t].slots, [], 0)
  }

  ghost predicate TableModeDrawable(pack: Pack, kind: string, locks: seq<Lock>) {
    var tables := KindTables(pack.tables, kind);
    tables != [] && (FullyLocked(locks) || SlotsDrawable(tables[0].slots, locks, 0))
  }

  /** Every lock on a slot of the first positive table names a card of the rarity. */
  ghost predicate RarityDrawable(pack: Pack, rarity: string, locks: seq<Lock>) {
    var tables := PositiveTables(pack.tables);
    && CardsForRarity(pack, rarity) != {} && tables != []
    && forall i :: 0 <= i < |tables[0].slots| && Locked(locks, i) ==> locks[i].cardId in CardsForRarity(pack, rarity)
  }

  /** The locked card, or else one of the slot. */
  predicate Fills(slots: seq<Slot>, locks: seq<Lock>, i: nat, id: string)
    requires i < |slots|
  {
    if Locked(locks, i) then id == locks[i].cardId else SlotCard(slots[i], id)
  }

  predicate FromTable(table: Table, locks: seq<Lock>, opening: Opening) {
    && opening.tableId == table.id
    && |opening.cards| == |table.slots|
    && forall i :: 0 <= i < |table.slots| ==> Fills(table.slots, locks, i, opening.cards[i])
  }

  method DrawFromTable(table: Table, locks: seq<Lock>, rng: Rng) returns (r: Result<Opening, Invalid>)
    modifies rng
    ensures Follows(r, rng.next, TableDraw(rng.source, old(rng.next), table, locks))
  {
    hide PositivePools, PositiveCards;
    var cards := [];
    AheadNothing(cards, SlotsDraw(rng.source, rng.next, table.slots, locks, 0), 0);
    for i := 0 to |table.slots|
      invariant SlotsDraw(rng.source, old(rng.next), table.slots, locks, 0)
                == Ahead(cards, SlotsDraw(rng.source, rng.next, table.slots, locks, i))
    {
      if i < |locks| && locks[i].locked && locks[i].cardId != "" {
        AheadTwice(cards, [locks[i].cardId], SlotsDraw(rng.source, rng.next, table.slots, locks, i + 1));
        cards := cards + [locks[i].cardId];
        continue;
      }
      assert !Locked(locks, i);
      var pools := PositivePools(table.slots[i].pools);
      if pools == [] {
        return Err(NoPool);
      }
      var p := Pick(rng, PoolWeights(pools));
      var pool := pools[p];
      var choices := PositiveCards(pool.cards);
      if choices == [] {
        return Err(NoCards);
      }
      var c := Pick(rng, CardWeights(choices));
      AheadTwice(cards, [choices[c].cardId], SlotsDraw(rng.source, rng.next, table.slots, locks, i + 1));
      cards := cards + [choices[c].cardId];
    }
    AheadNothing(cards, Ok((cards, 0)), rng.next);
    return Ok(Opening(table.id, cards));
  }

  /** Locked slots hold their card and every other one a card of positive weight; only a slot that can run
      dry makes the draw fail. */
  lemma {:induction false} SlotsDrawFits(source: nat -> nat, at: nat, slots: seq<Slot>, locks: seq<Lock>, i: nat)
    requires i <= |slots|
    ensures var r := SlotsDraw(source, at, slots, locks, i);
      if r.Ok? then
        |r.value.0| == |slots| - i && forall k :: 0 <= k < |slots| - i ==> Fills(slots, locks, i + k, r.value.0[k])
      else !SlotsDrawable(slots, locks, i)
    decreases |slots| - i
  {
    hide SlotCard, SlotDrawable, SlotDraw;
    if i < |slots| {
      SlotDrawFits(source, at, slots[i]);
      var drawn := SlotDraw(source, at, slots[i]);
      var next := if Locked(locks, i) || drawn.Err? then at else drawn.value.1;
      SlotsDrawFits(source, next, slots, locks, i + 1);
      var r, rest := SlotsDraw(source, at, slots, locks, i), SlotsDraw(source, next, slots, locks, i + 1);
      if r.Ok? {
        forall k | 0 <= k < |slots| - i ensures Fills(slots, locks, i + k, r.value.0[k]) {
          assert k > 0 ==> r.value.0[k] == rest.value.0[k - 1]
                           && Fills(slots, locks, i + 1 + (k - 1), rest.value.0[k - 1]);
        }
      }
    }
  }

  lemma SlotDrawFits(source: nat -> nat, at: nat, slot: Slot)
    ensures var r := SlotDraw(source, at, slot); if r.Ok? then SlotCard(slot, r.value.0) else !SlotDrawable(slot)
  {
    var pools := PositivePools(slot.pools);
    if pools != [] {
      var p := PickOf(source, at, PoolWeights(pools)).0;
      PickIsReachable(source, at, PoolWeights(pools));
      assert pools[p] in pools;
      var cards := PositiveCards(pools[p].cards);
      if cards != [] {
        var c := PickOf(source, PickOf(source, at, PoolWeights(pools)).1, CardWeights(cards)).0;
        assert cards[c] in cards;
      }
    }
  }

  lemma TableDrawFits(source: nat -> nat, at: nat, table: Table, locks: seq<Lock>)
    ensures var r := TableDraw(source, at, table, locks);
      if r.Ok? then FromTable(table, locks, r.value.0) else !SlotsDrawable(table.slots, locks, 0)
  {
    hide Fills, SlotsDrawable, SlotsDraw;
    SlotsDrawFits(source, at, table.slots, locks, 0);
    var r := SlotsDraw(source, at, table.slots, locks, 0);
    if r.Ok? {
      forall k | 0 <= k < |table.slots| ensures Fills(table.slots, locks, k, r.value.0[k]) {
        assert Fills(table.slots, locks, 0 + k, r.value.0[k]);
      }
    }
  }

  method DrawOfficial(pack: Pack, rng: Rng) returns (r: Result<Opening, Invalid>)
    modifies rng
    ensures Follows(r, rng.next, OfficialDraw(rng.source, old(rng.next), pack))
  {
    hide PositiveTables, TableDraw;
    var tables := PositiveTables(pack.tables);
    if tables == [] {
      return Err(NoTable);
    }
    var t := Pick(rng, TableWeights(tables));
    r := DrawFromTable(tables[t], [], rng);
  }

  lemma OfficialDrawFits(source: nat -> nat, at: nat, pack: Pack)
    ensures var r := OfficialDraw(source, at, pack);
      if r.Ok? then exists table :: table in pack.tables && table.weight > 0 && FromTable(table, [], r.value.0)
      else !OfficialDrawable(pack)
  {
    hide FromTable, SlotsDrawable, TableDraw;
    var tables := PositiveTables(pack.tables);
    if tables != [] {
      var (t, mid) := PickOf(source, at, TableWeights(tables));
      PickIsReachable(source, at, TableWeights(tables));
      assert tables[t] in tables;
      TableDrawFits(source, mid, tables[t], []);
    }
  }

  /** All five outputs are explicit cards. */
  predicate FullyLocked(locks: seq<Lock>) {
    |locks| == 5 && forall i :: 0 <= i < 5 ==> Locked(locks, i)
  }

  method FullyLockedPack(tableId: string, locks: seq<Lock>) returns (found: Option<Opening>)
    ensures found.Some? <==> FullyLocked(locks)
    ensures found.Some? ==> found.value.tableId == tableId && |found.value.cards| == 5
                            && forall i :: 0 <= i < 5 ==> found.value.cards[i] == locks[i].cardId
  {
    if |locks| != 5 {
      return None;
    }
    var cards := [];
    for i := 0 to 5
      invariant |cards| == i
      invariant forall k :: 0 <= k < i ==> Locked(locks, k) && cards[k] == locks[k].cardId
    {
      if !locks[i].locked || locks[i].cardId == "" {
        assert !Locked(locks, i);
        return None;
      }
      cards := cards + [locks[i].cardId];
    }
    return Some(Opening(tableId, cards));
  }

  /** The cards of five locked outputs. */
  function LockedCards(locks: seq<Lock>): seq<string> {
    seq(|locks|, i requires 0 <= i < |locks| => locks[i].cardId)
  }

  lemma {:induction false} LockedSlots(source: nat -> nat, at: nat, slots: seq<Slot>, locks: seq<Lock>, i: nat)
    requires i <= |slots| == |locks| && forall k :: i <= k < |slots| ==> Locked(locks, k)
    ensures SlotsDraw(source, at, slots, locks, i) == Ok((LockedCards(locks)[i..], at))
    decreases |slots| - i
  {
    if i < |slots| {
      LockedSlots(source, at, slots, locks, i + 1);
      assert Locked(locks, i);
      assert SlotsDraw(source, at, slots, locks, i)
             == Ahead([locks[i].cardId], Ok((LockedCards(locks)[i + 1..], at)));
      assert LockedCards(locks)[i..] == [locks[i].cardId] + LockedCards(locks)[i + 1..];
    } else {
      assert LockedCards(locks)[i..] == [];
    }
  }

  /** The shortcut for five locked cards is the table draw, with the random stream left where it was, if and only
      if the table has five slots. */
  lemma ShortcutNeedsFiveSlots(source: nat -> nat, at: nat, table: Table, locks: seq<Lock>)
    requires FullyLocked(locks)
    ensures TableDraw(source, at, table, locks) == Ok((Opening(table.id, LockedCards(locks)), at))
        <==> |table.slots| == 5
  {
    if |table.slots| == 5 {
      LockedSlots(source, at, table.slots, locks, 0);
      assert LockedCards(locks)[0..] == LockedCards(locks);
    } else {
      TableDrawFits(source, at, table, locks);
    }
  }

  function ConfiguredOutput(outputs: seq<seq<Lock>>, index: nat): seq<Lock> {
    if outputs == [] then [] else outputs[index % |outputs|]
  }

  predicate HasKind(pack: Pack, kind: string) {
    exists t :: t in pack.tables && t.kind == kind
  }

  method DrawTableMode(pack: Pack, kind: string, locks: seq<Lock>, rng: Rng) returns (r: Result<Opening, Invalid>)
    modifies rng
    ensures Follows(r, rng.next, TableModeDraw(rng.source, old(rng.next), pack, kind, locks))
  {
    hide KindTables, TableDraw;
    var tables := KindTables(pack.tables, kind);
    if tables == [] {
      return Err(NoTable);
    }
    var shortcut := FullyLockedPack(tables[0].id, locks);
    if shortcut.Some? {
      assert shortcut.value.cards == LockedCards(locks);
      return Ok(shortcut.value);
    }
    r := DrawFromTable(tables[0], locks, rng);
  }

  /** The first table of the wanted kind decides. */
  lemma TableModeDrawFits(source: nat -> nat, at: nat, pack: Pack, kind: string, locks: seq<Lock>, i: nat)
    requires i < |pack.tables| && pack.tables[i].kind == kind
    requires forall j :: 0 <= j < i ==> pack.tables[j].kind != kind
    ensures var table, r := pack.tables[i], TableModeDraw(source, at, pack, kind, locks);
      && (!FullyLocked(locks) ==> r == TableDraw(source, at, table, locks))
      && (r.Ok? ==> r.value.0.tableId == table.id)
      && (r.Ok? && (!FullyLocked(locks) || |table.slots| == 5) ==> FromTable(table, locks, r.value.0))
      && (FullyLocked(locks) ==> r.Ok? && r.value.1 == at && |r.value.0.cards| == 5)
      && (r.Err? ==> !SlotsDrawable(table.slots, locks, 0))
  {
    var keep := (t: Table) => t.kind == kind;
    KeptInPlace(pack.tables, keep, i);
    NoneKept(pack.tables[..i], keep);
    assert KindTables(pack.tables, kind)[0] == pack.tables[i];
    TableDrawFits(source, at, pack.tables[i], locks);
  }

  // ---------------------------------------------------------------- rarity draws

  /** Every card of the pack listed under the rarity. */
  function CardsForRarity(pack: Pack, rarity: string): (ids: set<string>) {
    set t, s, p, c | t in pack.tables && s in t.slots && p in s.pools && p.rarity == rarity && c in p.cards :: c.cardId
  }

  method DrawRarityMode(pack: Pack, rarity: string, locks: seq<Lock>, rng: Rng) returns (r: Result<Opening, Invalid>)
    modifies rng
    ensures Follows(r, rng.next, RarityDraw(rng.source, old(rng.next), pack, rarity, locks))
  {
    hide CardsForRarity, PositiveTables, SortedList;
    var cards := Sorted(CardsForRarity(pack, rarity));
    if cards == [] {
      return Err(NoCards);
    }
    var tables := PositiveTables(pack.tables);
    if tables == [] {
      return Err(NoTable);
    }
    var slots, result := |tables[0].slots|, [];
    AheadNothing(result, RarityCards(rng.source, rng.next, cards, slots, locks, 0), 0);
    for i := 0 to slots
      invariant RarityCards(rng.source, old(rng.next), cards, slots, locks, 0)
                == Ahead(result, RarityCards(rng.source, rng.next, cards, slots, locks, i))
    {
      ghost var at := rng.next;
      if i < |locks| && locks[i].locked && locks[i].cardId != "" {
        assert Locked(locks, i);
        if locks[i].cardId !in cards {
          return Err(LockOutsideRarity);
        }
        AheadTwice(result, [locks[i].cardId], RarityCards(rng.source, at, cards, slots, locks, i + 1));
        result := result + [locks[i].cardId];
        continue;
      }
      var c := rng.Below(|cards|);
      AheadTwice(result, [cards[c]], RarityCards(rng.source, at + 1, cards, slots, locks, i + 1));
      result := result + [cards[c]];
    }
    AheadNothing(result, Ok((result, 0)), rng.next);
    return Ok(Opening(tables[0].id, result));
  }

  predicate RarityCard(cards: seq<string>, locks: seq<Lock>, k: nat, id: string) {
    id in cards && (Locked(locks, k) ==> id == locks[k].cardId)
  }

  lemma {:induction false} RarityCardsFit(source: nat -> nat, at: nat, cards: seq<string>, slots: nat,
      locks: seq<Lock>, i: nat)
    requires cards != [] && i <= slots
    ensures var r := RarityCards(source, at, cards, slots, locks, i);
      && (r.Ok? <==> forall k :: i <= k < slots && Locked(locks, k) ==> locks[k].cardId in cards)
      && (r.Ok? ==> |r.value.0| == slots - i
                    && forall k :: 0 <= k < slots - i ==> RarityCard(cards, locks, i + k, r.value.0[k]))
    decreases slots - i
  {
    if i < slots {
      var next := if Locked(locks, i) then at else at + 1;
      RarityCardsFit(source, next, cards, slots, locks, i + 1);
      var r := RarityCards(source, at, cards, slots, locks, i);
      var rest := RarityCards(source, next, cards, slots, locks, i + 1);
      if r.Ok? {
        forall k | 0 <= k < slots - i ensures RarityCard(cards, locks, i + k, r.value.0[k]) {
          assert if k == 0 then r.value.0[0] in cards else r.value.0[k] == rest.value.0[k - 1];
        }
      }
    }
  }

  /** Exactly when a rarity draw succeeds, and that every card has the rarity and locks are obeyed. */
  lemma RarityDrawFits(source: nat -> nat, at: nat, pack: Pack, rarity: string, locks: seq<Lock>)
    ensures var r := RarityDraw(source, at, pack, rarity, locks);
      && (r.Ok? <==> RarityDrawable(pack, rarity, locks))
      && (r.Ok? ==> var table := PositiveTables(pack.tables)[0];
                    && r.value.0.tableId == table.id && |r.value.0.cards| == |table.slots|
                    && forall i :: 0 <= i < |table.slots| ==>
                         r.value.0.cards[i] in CardsForRarity(pack, rarity)
                         && (Locked(locks, i) ==> r.value.0.cards[i] == locks[i].cardId))
  {
    hide CardsForRarity, PositiveTables, SortedList, RarityCards;
    var cards := SortedList(CardsForRarity(pack, rarity));
    if cards != [] && PositiveTables(pack.tables) != [] {
      var slots := |PositiveTables(pack.tables)[0].slots|;
      RarityCardsFit(source, at, cards, slots, locks, 0);
      var r := RarityCards(source, at, cards, slots, locks, 0);
      if r.Ok? {
        forall k | 0 <= k < slots ensures RarityCard(cards, locks, k, r.value.0[k]) {
          assert RarityCard(cards, locks, 0 + k, r.value.0[k]);
        }
      }
    }
  }
}
