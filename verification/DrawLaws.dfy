/** How the random values decide a draw of internal/packlab/engine.go, in terms of the weights and cards of the
    catalogue. */
module DrawLaws {
  import opened Wrappers
  import opened WeightedIndex
  import opened Sorting
  import opened PackDraw
  import opened IllegalDraw

  // ---------------------------------------------------------------- draws from a table

  ghost predicate PoolThenCard(source: nat -> nat, at: nat, slot: Slot, p: int, mid: nat, c: int, after: nat) {
    var pools := PositivePools(slot.pools);
    && ByWeight(source, at, pools, (pool: Pool) => pool.weight, p, mid)
    && ByWeight(source, mid, PositiveCards(pools[p].cards), (card: WeightedCard) => card.weight, c, after)
  }

  /** A positive pool of the slot by its weight and then a positive card of that pool by its weight. */
  ghost predicate SlotByWeight(source: nat -> nat, at: nat, slot: Slot, id: string, after: nat) {
    exists p, mid, c :: PoolThenCard(source, at, slot, p, mid, c, after)
                        && id == PositiveCards(PositivePools(slot.pools)[p].cards)[c].cardId
  }

  lemma SlotDrawByWeight(source: nat -> nat, at: nat, slot: Slot)
    requires SlotDraw(source, at, slot).Ok?
    ensures SlotByWeight(source, at, slot, SlotDraw(source, at, slot).value.0, SlotDraw(source, at, slot).value.1)
  {
    hide PositivePools, PositiveCards, PickOf;
    var pools := PositivePools(slot.pools);
    var (p, mid) := PickOf(source, at, PoolWeights(pools));
    var cards := PositiveCards(pools[p].cards);
    PickIsByWeight(source, at, PoolWeights(pools), pools, (pool: Pool) => pool.weight);
    PickIsByWeight(source, mid, CardWeights(cards), cards, (card: WeightedCard) => card.weight);
    var (c, after) := PickOf(source, mid, CardWeights(cards));
    assert PoolThenCard(source, at, slot, p, mid, c, after);
  }

  /** The card of slot `k`: a locked slot takes its card and no value. */
  ghost predicate CardOfSlot(source: nat -> nat, at: nat, slots: seq<Slot>, locks: seq<Lock>, k: nat, id: string,
      after: nat)
    requires k < |slots|
  {
    if k < |locks| && locks[k].locked && locks[k].cardId != "" then id == locks[k].cardId && after == at
    else SlotByWeight(source, at, slots[k], id, after)
  }

  /** The slots from `i` on were drawn one after the other; `trace` holds the places of the stream between them. */
  ghost predicate InTurn(source: nat -> nat, slots: seq<Slot>, locks: seq<Lock>, i: nat, cards: seq<string>,
      trace: seq<nat>)
  {
    && i + |cards| == |slots| && |trace| == |cards| + 1
    && forall k :: 0 <= k < |cards| ==> CardOfSlot(source, trace[k], slots, locks, i + k, cards[k], trace[k + 1])
  }

  lemma {:induction false} SlotsDrawByWeight(source: nat -> nat, at: nat, slots: seq<Slot>, locks: seq<Lock>, i: nat)
    returns (trace: seq<nat>)
    requires i <= |slots| && SlotsDraw(source, at, slots, locks, i).Ok?
    ensures var (cards, after) := SlotsDraw(source, at, slots, locks, i).value;
      InTurn(source, slots, locks, i, cards, trace) && trace[0] == at && trace[|cards|] == after
    decreases |slots| - i
  {
    hide CardOfSlot, SlotDraw;
    trace := [at];
    if i < |slots| {
      var mid := OneSlotByWeight(source, at, slots, locks, i);
      var rest := SlotsDrawByWeight(source, mid, slots, locks, i + 1);
      trace := [at] + rest;
      var cards := SlotsDraw(source, at, slots, locks, i).value.0;
      forall k | 0 <= k < |cards| ensures CardOfSlot(source, trace[k], slots, locks, i + k, cards[k], trace[k + 1]) {
        assert k > 0 ==> trace[k] == rest[k - 1] && trace[k + 1] == rest[k] && cards[k] == cards[1..][k - 1];
      }
    }
  }

  lemma OneSlotByWeight(source: nat -> nat, at: nat, slots: seq<Slot>, locks: seq<Lock>, i: nat) returns (mid: nat)
    requires i < |slots| && SlotsDraw(source, at, slots, locks, i).Ok?
    ensures var cards := SlotsDraw(source, at, slots, locks, i).value.0;
      && SlotsDraw(source, mid, slots, locks, i + 1).Ok?
      && cards != [] && cards[1..] == SlotsDraw(source, mid, slots, locks, i + 1).value.0
      && SlotsDraw(source, at, slots, locks, i).value.1 == SlotsDraw(source, mid, slots, locks, i + 1).value.1
      && CardOfSlot(source, at, slots, locks, i, cards[0], mid)
  {
    hide SlotDraw, SlotByWeight;
    mid := at;
    if !Locked(locks, i) {
      SlotDrawByWeight(source, at, slots[i]);
      mid := SlotDraw(source, at, slots[i]).value.1;
    }
  }

  /** A booster of a table: its cards are drawn slot by slot. */
  lemma TableDrawByWeight(source: nat -> nat, at: nat, table: Table, locks: seq<Lock>) returns (trace: seq<nat>)
    requires TableDraw(source, at, table, locks).Ok?
    ensures var (opening, after) := TableDraw(source, at, table, locks).value;
      && opening.tableId == table.id && InTurn(source, table.slots, locks, 0, opening.cards, trace)
      && trace[0] == at && trace[|opening.cards|] == after
  {
    hide InTurn;
    trace := SlotsDrawByWeight(source, at, table.slots, locks, 0);
  }

  /** An official booster: a positive table by its weight, then its slots. */
  lemma OfficialDrawByWeight(source: nat -> nat, at: nat, pack: Pack) returns (t: int, trace: seq<nat>)
    requires OfficialDraw(source, at, pack).Ok?
    ensures var (opening, after) := OfficialDraw(source, at, pack).value;
      var tables := PositiveTables(pack.tables);
      && 0 <= t < |tables| && |trace| == |opening.cards| + 1
      && ByWeight(source, at, tables, (table: Table) => table.weight, t, trace[0])
      && opening.tableId == tables[t].id && InTurn(source, tables[t].slots, [], 0, opening.cards, trace)
      && trace[|opening.cards|] == after
  {
    hide PositiveTables, TableDraw, PickOf;
    var tables := PositiveTables(pack.tables);
    var (i, mid) := PickOf(source, at, TableWeights(tables));
    t := i;
    PickIsByWeight(source, at, TableWeights(tables), tables, (table: Table) => table.weight);
    trace := TableDrawByWeight(source, mid, tables[t], []);
  }

  /** A rarity booster: each free slot of the first positive table takes the listed card that the next value names. */
  lemma RarityDrawInTurn(source: nat -> nat, at: nat, pack: Pack, rarity: string, locks: seq<Lock>)
    returns (trace: seq<nat>)
    requires RarityDraw(source, at, pack, rarity, locks).Ok?
    ensures var (opening, after) := RarityDraw(source, at, pack, rarity, locks).value;
      && |trace| == |opening.cards| + 1 && trace[0] == at && trace[|opening.cards|] == after
      && forall k :: 0 <= k < |opening.cards| ==>
           Listed(source, trace[k], SortedList(CardsForRarity(pack, rarity)), locks, k, opening.cards[k], trace[k + 1])
  {
    hide CardsForRarity, SortedList, PositiveTables, Listed, RarityCards;
    var tables := PositiveTables(pack.tables);
    trace := RarityCardsInTurn(source, at, SortedList(CardsForRarity(pack, rarity)), |tables[0].slots|, locks, 0);
    var cards := RarityDraw(source, at, pack, rarity, locks).value.0.cards;
    forall k | 0 <= k < |cards|
      ensures Listed(source, trace[k], SortedList(CardsForRarity(pack, rarity)), locks, k, cards[k], trace[k + 1])
    {
      assert 0 + k == k;
    }
  }

  ghost predicate Listed(source: nat -> nat, at: nat, list: seq<string>, locks: seq<Lock>, k: nat, id: string,
      after: nat)
  {
    if k < |locks| && locks[k].locked && locks[k].cardId != "" then id == locks[k].cardId && after == at
    else list != [] && id == list[source(at) % |list|] && after == at + 1
  }

  lemma {:induction false} RarityCardsInTurn(source: nat -> nat, at: nat, list: seq<string>, slots: nat,
      locks: seq<Lock>, i: nat)
    returns (trace: seq<nat>)
    requires list != [] && i <= slots && RarityCards(source, at, list, slots, locks, i).Ok?
    ensures var (cards, after) := RarityCards(source, at, list, slots, locks, i).value;
      && |trace| == |cards| + 1 && trace[0] == at && trace[|cards|] == after
      && forall k :: 0 <= k < |cards| ==> Listed(source, trace[k], list, locks, i + k, cards[k], trace[k + 1])
    decreases slots - i
  {
    trace := [at];
    if i < slots {
      var mid := if Locked(locks, i) then at else at + 1;
      var rest := RarityCardsInTurn(source, mid, list, slots, locks, i + 1);
      trace := [at] + rest;
      var cards := RarityCards(source, at, list, slots, locks, i).value.0;
      forall k | 0 <= k < |cards| ensures Listed(source, trace[k], list, locks, i + k, cards[k], trace[k + 1]) {
        assert k > 0 ==> trace[k] == rest[k - 1] && trace[k + 1] == rest[k] && cards[k] == cards[1..][k - 1];
      }
    }
  }

  // ---------------------------------------------------------------- draws without replacement

  predicate Offers(codes: Codes, pool: Pool, card: Card) {
    card.rarity in CodesOf(codes, pool.rarity)
  }

  ghost predicate OffersSome(codes: Codes, pool: Pool, cards: seq<Card>) {
    exists card :: card in cards && Offers(codes, pool, card)
  }

  /** The positive pools that still offer a card, in the order of the slots. */
  ghost function OfferingPools(codes: Codes, slots: seq<Slot>, cards: seq<Card>): seq<Pool> {
    Kept(PoolsOf(slots), (pool: Pool) => OffersSome(codes, pool, cards))
  }

  /** How many of the first `i` cards the pool offers. */
  function OfferedBefore(codes: Codes, pool: Pool, cards: seq<Card>, i: nat): nat
    requires i <= |cards|
  {
    if i == 0 then 0 else
      OfferedBefore(codes, pool, cards, i - 1) + if Offers(codes, pool, cards[i - 1]) then 1 else 0
  }

  lemma {:induction false} ChoicesAreOffers(codes: Codes, pools: seq<Pool>, cards: seq<Card>)
    ensures var offering := Kept(pools, (pool: Pool) => OffersSome(codes, pool, cards));
      var choices := ChoicesOf(codes, pools, cards);
      |choices| == |offering| && forall k :: 0 <= k < |choices| ==> choices[k] == ChoiceOf(codes, offering[k], cards)
  {
    if pools != [] {
      hide IndexesOf, OffersSome;
      var keep := (pool: Pool) => OffersSome(codes, pool, cards);
      var front, last := pools[..|pools| - 1], pools[|pools| - 1];
      ChoicesAreOffers(codes, front, cards);
      KeptApart(front, [last], keep);
      assert pools == front + [last];
      OneKept(last, keep);
      IndexesShowOffers(codes, last, cards);
      ChoicesGrow(codes, front, last, cards);
      hide Kept, ChoicesOf;
    }
  }

  lemma OneKept<T(!new)>(value: T, keep: T -> bool)
    ensures Kept([value], keep) == if keep(value) then [value] else []
  {
    assert [value][1..] == [];
  }

  lemma IndexesShowOffers(codes: Codes, pool: Pool, cards: seq<Card>)
    ensures ChoiceOf(codes, pool, cards).indexes == [] <==> !OffersSome(codes, pool, cards)
  {
    var indexes := ChoiceOf(codes, pool, cards).indexes;
    if indexes != [] {
      assert indexes[0] in indexes;
      assert cards[indexes[0]] in cards;
    }
    forall card | card in cards && Offers(codes, pool, card) ensures indexes != [] {
      var k :| 0 <= k < |cards| && cards[k] == card;
      assert k in indexes;
    }
  }

  /** Index number `n` of a choice is the card with exactly `n` offered ones before it. */
  lemma {:induction false} IndexesCountOffers(codes: Codes, pool: Pool, cards: seq<Card>, n: nat)
    ensures var indexes := ChoiceOf(codes, pool, cards).indexes;
      && |indexes| == OfferedBefore(codes, pool, cards, |cards|)
      && (n < |indexes| ==> indexes[n] < |cards| && Offers(codes, pool, cards[indexes[n]])
                            && OfferedBefore(codes, pool, cards, indexes[n]) == n)
  {
    if cards != [] {
      var front := cards[..|cards| - 1];
      IndexesCountOffers(codes, pool, front, n);
      SameCounts(codes, pool, front, cards, |front|);
      var before := ChoiceOf(codes, pool, front).indexes;
      if n < |before| {
        SameCounts(codes, pool, front, cards, before[n]);
      }
    }
  }

  lemma {:induction false} SameCounts(codes: Codes, pool: Pool, front: seq<Card>, cards: seq<Card>, i: nat)
    requires i <= |front| <= |cards| && cards[..|front|] == front
    ensures OfferedBefore(codes, pool, cards, i) == OfferedBefore(codes, pool, front, i)
  {
    if i > 0 {
      assert cards[i - 1] == cards[..|front|][i - 1];
      SameCounts(codes, pool, front, cards, i - 1);
    }
  }

  /** The pools that the slot of card `k` still offers cards from, or else those of the whole table. */
  ghost function PoolsFor(codes: Codes, table: Table, k: nat, available: seq<Card>): seq<Pool>
    requires table.slots != []
  {
    var own := OfferingPools(codes, [table.slots[k % |table.slots|]], available);
    if own != [] then own else OfferingPools(codes, table.slots, available)
  }

  lemma ChoicesForAreOffers(codes: Codes, table: Table, k: nat, available: seq<Card>)
    requires table.slots != []
    ensures var pools, choices := PoolsFor(codes, table, k, available), ChoicesFor(codes, table, k, available);
      && |choices| == |pools|
      && forall j :: 0 <= j < |choices| ==>
           choices[j] == ChoiceOf(codes, pools[j], available) && choices[j].weight == pools[j].weight
  {
    hide PoolsOf, ChoicesOf, IndexesOf, Kept, OffersSome;
    ChoicesAreOffers(codes, PoolsOf([table.slots[k % |table.slots|]]), available);
    ChoicesAreOffers(codes, PoolsOf(table.slots), available);
  }

  /** The next card: of the pools that the slot, or else the table, still offers cards from, one by its weight, and of
      its cards the one that the following value counts off; without such a pool any card. The first value is taken in
      every case. */
  lemma CardDrawByWeight(source: nat -> nat, at: nat, codes: Codes, table: Table, k: nat, available: seq<Card>)
    returns (p: int, mid: nat)
    requires table.slots != [] && available != []
    ensures var (i, after) := CardDraw(source, at, codes, table, k, available);
      var pools := PoolsFor(codes, table, k, available);
      if pools == [] then i == source(at) % |available| && after == at + 1 else
        && ByWeight(source, at + 1, pools, (pool: Pool) => pool.weight, p, mid) && after == mid + 1
        && Offers(codes, pools[p], available[i])
        && OfferedBefore(codes, pools[p], available, |available|) > 0
        && OfferedBefore(codes, pools[p], available, i) ==
           source(mid) % OfferedBefore(codes, pools[p], available, |available|)
  {
    hide PoolsOf, ChoicesOf, ChoicesFor, ChoiceOf, PoolsFor, PickOf, Offers, OfferedBefore;
    var pools, choices := PoolsFor(codes, table, k, available), ChoicesFor(codes, table, k, available);
    ChoicesForAreOffers(codes, table, k, available);
    p, mid := 0, 0;
    if choices != [] {
      var picked := PickOf(source, at + 1, ChoiceWeights(choices));
      p, mid := picked.0, picked.1;
      PickIsByWeight(source, at + 1, ChoiceWeights(choices), pools, (pool: Pool) => pool.weight);
      ChoicesAreUsable(codes, table, k, available);
      assert choices[p] in choices;
      IndexesCountOffers(codes, pools[p], available, source(mid) % |choices[p].indexes|);
    }
  }

  /** The table of an illegal booster is one of the eligible tables by its weight. */
  lemma PoolDrawByWeight(source: nat -> nat, at: nat, codes: Codes, pack: Pack, pool: seq<Card>, rule: IllegalRule)
    returns (t: int, mid: nat)
    requires PoolDraw(source, at, codes, pack, pool, rule).Ok?
    ensures var (opening, after) := PoolDraw(source, at, codes, pack, pool, rule).value;
      var tables := IllegalTables(pack);
      && ByWeight(source, at, tables, (table: Table) => table.weight, t, mid)
      && opening.tableId == tables[t].id && tables[t].slots != []
      && WithIds(IllegalCards(source, mid, codes, tables[t], pool, rule, 0)) == Ok((opening.cards, after))
  {
    hide IllegalTables, IllegalCards, PickOf;
    var tables := IllegalTables(pack);
    var picked := PickOf(source, at, TableWeights(tables));
    t, mid := picked.0, picked.1;
    PickIsByWeight(source, at, TableWeights(tables), tables, (table: Table) => table.weight);
  }

  lemma {:induction false} KeptTwice<T(!new)>(values: seq<T>, first: T -> bool, second: T -> bool, both: T -> bool)
    requires forall v :: both(v) <==> first(v) && second(v)
    ensures Kept(Kept(values, first), second) == Kept(values, both)
  {
    if values != [] {
      var rest := Kept(values[1..], first);
      KeptTwice(values[1..], first, second, both);
      if first(values[0]) {
        assert Kept(values, first) == [values[0]] + rest && ([values[0]] + rest)[1..] == rest;
      } else {
        assert Kept(values, first) == rest;
      }
    }
  }

  /** The eligible tables of an illegal draw, in the order of the pack: the normal ones with slots and a positive
      weight; without any the normal ones with slots; without any those of positive weight; without any those with
      slots. */
  lemma IllegalTablesExactly(pack: Pack)
    ensures var normal := Kept(pack.tables, (t: Table) => t.kind == "normal" && t.slots != []);
      var best := Kept(pack.tables, (t: Table) => t.kind == "normal" && t.slots != [] && t.weight > 0);
      var positive := Kept(pack.tables, (t: Table) => t.weight > 0);
      IllegalTables(pack) ==
      if best != [] then best
      else if normal != [] then normal
      else if positive != [] then positive
      else Kept(pack.tables, (t: Table) => t.slots != [])
  {
    var kind, slots := (t: Table) => t.kind == "normal", (t: Table) => t.slots != [];
    var weight := (t: Table) => t.weight > 0;
    var normal := (t: Table) => t.kind == "normal" && t.slots != [];
    var best := (t: Table) => t.kind == "normal" && t.slots != [] && t.weight > 0;
    KeptTwice(pack.tables, kind, slots, normal);
    KeptTwice(pack.tables, normal, weight, best);
    assert IllegalTables(pack) == if Kept(Kept(Kept(pack.tables, kind), slots), weight) != []
      then Kept(Kept(Kept(pack.tables, kind), slots), weight)
      else if Kept(Kept(pack.tables, kind), slots) != [] then Kept(Kept(pack.tables, kind), slots)
      else if Kept(pack.tables, weight) != [] then Kept(pack.tables, weight)
      else Kept(pack.tables, slots);
  }
}
