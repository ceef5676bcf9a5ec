/** The replacement draw over a filtered card pool, internal/packlab/engine.go:398-516. */
module IllegalDraw {
  import opened Wrappers
  import opened WeightedIndex
  import opened PackDraw

  datatype Choice = Choice(weight: int, indexes: seq<nat>)

  function CodesOf(codes: Codes, rarity: string): set<int> {
    if rarity in codes then codes[rarity] else {}
  }

  /** Some positive pool of the slots lists the card's rarity. */
  predicate Offered(codes: Codes, slots: seq<Slot>, card: Card) {
    exists s, p :: s in slots && p in s.pools && p.weight > 0 && card.rarity in CodesOf(codes, p.rarity)
  }

  /** The places of the cards with one of the codes, in ascending order. */
  function IndexesOf(codes: set<int>, cards: seq<Card>): (indexes: seq<nat>)
    ensures forall i: nat :: i in indexes <==> i < |cards| && cards[i].rarity in codes
    ensures forall a, b :: 0 <= a < b < |indexes| ==> indexes[a] < indexes[b]
  {
    if cards == [] then [] else
      var front := IndexesOf(codes, cards[..|cards| - 1]);
      assert forall a :: 0 <= a < |front| ==> front[a] in front;
      front + if cards[|cards| - 1].rarity in codes then [|cards| - 1] else []
  }

  method Matching(codes: set<int>, cards: seq<Card>) returns (indexes: seq<nat>)
    ensures indexes == IndexesOf(codes, cards)
  {
    indexes := [];
    for index := 0 to |cards|
      invariant indexes == IndexesOf(codes, cards[..index])
    {
      assert cards[..index + 1][..index] == cards[..index];
      if cards[index].rarity in codes {
        indexes := indexes + [index];
      }
    }
    assert cards[..|cards|] == cards;
  }

  /** The pools of positive weight of all slots. */
  function PoolsOf(slots: seq<Slot>): (pools: seq<Pool>)
    ensures forall p :: p in pools <==> exists s :: s in slots && p in s.pools && p.weight > 0
  {
    if slots == [] then [] else
      assert slots == slots[..|slots| - 1] + [slots[|slots| - 1]];
      PoolsOf(slots[..|slots| - 1]) + PositivePools(slots[|slots| - 1].pools)
  }

  function ChoiceOf(codes: Codes, pool: Pool, cards: seq<Card>): Choice {
    Choice(pool.weight, IndexesOf(CodesOf(codes, pool.rarity), cards))
  }

  /** One choice for each pool that offers a card, with the weight of the pool and the cards it offers. */
  function ChoicesOf(codes: Codes, pools: seq<Pool>, cards: seq<Card>): (choices: seq<Choice>)
    ensures forall c :: c in choices <==> exists p :: p in pools && c == ChoiceOf(codes, p, cards) && c.indexes != []
  {
    if pools == [] then [] else
      var last := pools[|pools| - 1];
      assert pools == pools[..|pools| - 1] + [last];
      ChoicesOf(codes, pools[..|pools| - 1], cards)
      + if ChoiceOf(codes, last, cards).indexes == [] then [] else [ChoiceOf(codes, last, cards)]
  }

  lemma ChoicesGrow(codes: Codes, pools: seq<Pool>, last: Pool, cards: seq<Card>)
    ensures ChoicesOf(codes, pools + [last], cards)
            == ChoicesOf(codes, pools, cards)
               + if ChoiceOf(codes, last, cards).indexes == [] then [] else [ChoiceOf(codes, last, cards)]
  {
    assert (pools + [last])[..|pools|] == pools;
  }

  lemma PoolsGrow(slots: seq<Slot>, last: Slot)
    ensures PoolsOf(slots + [last]) == PoolsOf(slots) + PositivePools(last.pools)
  {
    assert (slots + [last])[..|slots|] == slots;
  }

  lemma NoSlotsNoChoices(codes: Codes, cards: seq<Card>)
    ensures ChoicesOf(codes, PoolsOf([]), cards) == []
  {
  }

  method PoolChoices(codes: Codes, slots: seq<Slot>, cards: seq<Card>) returns (choices: seq<Choice>)
    ensures choices == ChoicesOf(codes, PoolsOf(slots), cards)
  {
    hide PositivePools, IndexesOf, ChoicesOf, PoolsOf;
    NoSlotsNoChoices(codes, cards);
    assert slots[..0] == [];
    choices := [];
    for i := 0 to |slots|
      invariant choices == ChoicesOf(codes, PoolsOf(slots[..i]), cards)
    {
      var pools := PositivePools(slots[i].pools);
      ghost var seen := PoolsOf(slots[..i]);
      assert seen + pools[..0] == seen;
      for j := 0 to |pools|
        invariant choices == ChoicesOf(codes, seen + pools[..j], cards)
      {
        assert seen + pools[..j + 1] == seen + pools[..j] + [pools[j]];
        ChoicesGrow(codes, seen + pools[..j], pools[j], cards);
        var indexes := Matching(CodesOf(codes, pools[j].rarity), cards);
        if indexes != [] {
          choices := choices + [Choice(pools[j].weight, indexes)];
        }
      }
      assert pools[..|pools|] == pools;
      assert slots[..i + 1] == slots[..i] + [slots[i]];
      PoolsGrow(slots[..i], slots[i]);
    }
    assert slots[..|slots|] == slots;
  }

  /** Every choice leads to an offered card, and there is none exactly when no card is offered. */
  lemma ChoicesOffer(codes: Codes, slots: seq<Slot>, cards: seq<Card>)
    ensures var choices := ChoicesOf(codes, PoolsOf(slots), cards);
      && (forall c, i :: c in choices && i in c.indexes ==> i < |cards| && Offered(codes, slots, cards[i]))
      && (choices == [] <==> forall card :: card in cards ==> !Offered(codes, slots, card))
  {
    hide PoolsOf, ChoicesOf, IndexesOf;
    var pools, choices := PoolsOf(slots), ChoicesOf(codes, PoolsOf(slots), cards);
    forall c, i | c in choices && i in c.indexes ensures i < |cards| && Offered(codes, slots, cards[i]) {
      var p :| p in pools && c == ChoiceOf(codes, p, cards);
    }
    forall card | card in cards && Offered(codes, slots, card) ensures choices != [] {
      var s, p :| s in slots && p in s.pools && p.weight > 0 && card.rarity in CodesOf(codes, p.rarity);
      var k :| 0 <= k < |cards| && cards[k] == card;
      assert p in pools && k in ChoiceOf(codes, p, cards).indexes;
      assert ChoiceOf(codes, p, cards) in choices;
    }
    if choices != [] {
      assert choices[0] in choices;
      assert choices[0].indexes[0] in choices[0].indexes;
    }
  }

  // ---------------------------------------------------------------- one card

  /** The card respects its slot if any card left does, else the table if any does. */
  ghost predicate Preferred(codes: Codes, table: Table, k: nat, left: multiset<Card>, card: Card)
    requires table.slots != []
  {
    var slot := [table.slots[k % |table.slots|]];
    && card in left
    && ((exists c :: c in left && Offered(codes, slot, c)) ==> Offered(codes, slot, card))
    && ((exists c :: c in left && Offered(codes, table.slots, c)) ==> Offered(codes, table.slots, card))
  }

  lemma SlotOffersAreTableOffers(codes: Codes, table: Table, k: nat, card: Card)
    requires table.slots != []
    ensures Offered(codes, [table.slots[k % |table.slots|]], card) ==> Offered(codes, table.slots, card)
  {
    assert table.slots[k % |table.slots|] in table.slots;
  }

  function ChoiceWeights(choices: seq<Choice>): seq<int> {
    seq(|choices|, i requires 0 <= i < |choices| => choices[i].weight)
  }

  /** The choices of the slot, or of the whole table when the slot offers nothing that is left. */
  function ChoicesFor(codes: Codes, table: Table, k: nat, available: seq<Card>): seq<Choice>
    requires table.slots != []
  {
    var own := ChoicesOf(codes, PoolsOf([table.slots[k % |table.slots|]]), available);
    if own != [] then own else ChoicesOf(codes, PoolsOf(table.slots), available)
  }

  lemma ChoicesAreUsable(codes: Codes, table: Table, k: nat, available: seq<Card>)
    requires table.slots != []
    ensures forall c :: c in ChoicesFor(codes, table, k, available) ==>
              c.indexes != [] && forall i :: i in c.indexes ==> i < |available|
  {
    hide PoolsOf, IndexesOf;
  }

  /** The place of the next card: a value for any card is always taken first, then, when there are choices, a
      choice by weight and one of its cards. */
  ghost function CardDraw(source: nat -> nat, at: nat, codes: Codes, table: Table, k: nat, available: seq<Card>)
    : (drawn: (nat, nat))
    requires table.slots != [] && available != []
    ensures drawn.0 < |available|
  {
    var choices := ChoicesFor(codes, table, k, available);
    if choices == [] then (source(at) % |available|, at + 1) else
      var (c, mid) := PickOf(source, at + 1, ChoiceWeights(choices));
      ChoicesAreUsable(codes, table, k, available);
      assert choices[c] in choices;
      var pick := source(mid) % |choices[c].indexes|;
      assert choices[c].indexes[pick] in choices[c].indexes;
      (choices[c].indexes[pick], mid + 1)
  }

  method DrawCard(codes: Codes, table: Table, k: nat, available: seq<Card>, rng: Rng) returns (index: nat)
    requires table.slots != [] && available != []
    modifies rng
    ensures (index, rng.next) == CardDraw(rng.source, old(rng.next), codes, table, k, available)
  {
    hide PoolsOf, ChoicesOf;
    var slot := table.slots[k % |table.slots|];
    var choices := PoolChoices(codes, [slot], available);
    if choices == [] {
      choices := PoolChoices(codes, table.slots, available);
    }
    index := rng.Below(|available|);
    if choices != [] {
      var c := Pick(rng, ChoiceWeights(choices));
      ChoicesAreUsable(codes, table, k, available);
      assert choices[c] in choices;
      var pick := rng.Below(|choices[c].indexes|);
      index := choices[c].indexes[pick];
    }
  }

  lemma CardDrawPrefers(source: nat -> nat, at: nat, codes: Codes, table: Table, k: nat, available: seq<Card>)
    requires table.slots != [] && available != []
    ensures Preferred(codes, table, k, multiset(available),
        available[CardDraw(source, at, codes, table, k, available).0])
  {
    hide PoolsOf, ChoicesOf, Offered;
    var slot, index := [table.slots[k % |table.slots|]], CardDraw(source, at, codes, table, k, available).0;
    ChoicesOffer(codes, slot, available);
    ChoicesOffer(codes, table.slots, available);
    SlotOffersAreTableOffers(codes, table, k, available[index]);
    var choices := ChoicesFor(codes, table, k, available);
    if choices != [] {
      var (c, mid) := PickOf(source, at + 1, ChoiceWeights(choices));
      ChoicesAreUsable(codes, table, k, available);
      assert choices[c] in choices;
      var pick := source(mid) % |choices[c].indexes|;
      assert choices[c].indexes[pick] in choices[c].indexes;
    }
    forall card | card in multiset(available) ensures card in available {
    }
  }

  // ---------------------------------------------------------------- the whole booster

  ghost predicate DistinctIds(cards: seq<Card>) {
    forall i, j :: 0 <= i < j < |cards| ==> cards[i].id != cards[j].id
  }

  ghost function Left(pool: seq<Card>, drawn: seq<Card>, allowDuplicates: bool): multiset<Card> {
    if allowDuplicates then multiset(pool) else multiset(pool) - multiset(drawn)
  }

  ghost predicate LegalDraw(codes: Codes, table: Table, pool: seq<Card>, drawn: seq<Card>, allowDuplicates: bool)
    requires table.slots != []
  {
    forall k :: 0 <= k < |drawn| ==> Preferred(codes, table, k, Left(pool, drawn[..k], allowDuplicates), drawn[k])
  }

  function Ids(cards: seq<Card>): seq<string> {
    seq(|cards|, i requires 0 <= i < |cards| => cards[i].id)
  }

  function Without(cards: seq<Card>, i: nat): (rest: seq<Card>)
    requires i < |cards|
    ensures |rest| == |cards| - 1
  {
    cards[..i] + cards[i + 1..]
  }

  function Remaining(cards: seq<Card>, i: nat, allowDuplicates: bool): seq<Card>
    requires i < |cards|
  {
    if allowDuplicates then cards else Without(cards, i)
  }

  /** The cards from number `k` on, drawn from what is available. */
  ghost function IllegalCards(source: nat -> nat, at: nat, codes: Codes, table: Table, available: seq<Card>,
      rule: IllegalRule, k: nat)
    : Draws<Card>
    requires table.slots != []
    decreases rule.cardCount - k
  {
    if k >= rule.cardCount then Ok(([], at))
    else if available == [] then Err(NotEnoughCards)
    else
      var (i, after) := CardDraw(source, at, codes, table, k, available);
      Ahead([available[i]],
            IllegalCards(source, after, codes, table, Remaining(available, i, rule.allowDuplicates), rule, k + 1))
  }

  /** One step of the draw. */
  lemma NextCard(source: nat -> nat, at: nat, codes: Codes, table: Table, available: seq<Card>, rule: IllegalRule,
      k: nat)
    requires table.slots != [] && k < rule.cardCount
    ensures var r := IllegalCards(source, at, codes, table, available, rule, k);
      if available == [] then r == Err(NotEnoughCards) else
        var (i, after) := CardDraw(source, at, codes, table, k, available);
        var rest := Remaining(available, i, rule.allowDuplicates);
        r == Ahead([available[i]], IllegalCards(source, after, codes, table, rest, rule, k + 1))
  {
  }

  function WithIds(cards: Draws<Card>): Draws<string> {
    if cards.Ok? then Ok((Ids(cards.value.0), cards.value.1)) else Err(cards.error)
  }

  ghost function PoolDraw(source: nat -> nat, at: nat, codes: Codes, pack: Pack, pool: seq<Card>, rule: IllegalRule)
    : Result<(Opening, nat), Invalid>
  {
    var tables := IllegalTables(pack);
    if tables == [] then Err(NoTable) else
      var (t, mid) := PickOf(source, at, TableWeights(tables));
      if tables[t].slots == [] then Err(NoSlots)
      else Booster(tables[t].id, WithIds(IllegalCards(source, mid, codes, tables[t], pool, rule, 0)))
  }

  /** `append(available[:i], available[i+1:]...)`: the rest moves one place down in the same array. */
  method Delete(a: array<Card>, length: nat, i: nat)
    requires i < length <= a.Length
    modifies a
    ensures a[..length - 1] == Without(old(a[..length]), i)
  {
    ghost var before := a[..length];
    for j := i + 1 to length
      invariant a[..j - 1] == before[..i] + before[i + 1..j]
      invariant a[j..length] == before[j..]
    {
      assert a[j] == a[j..length][0];
      a[j - 1] := a[j];
    }
  }

  lemma RemoveOne(a: seq<Card>, i: nat)
    requires i < |a|
    ensures multiset(Without(a, i)) == multiset(a) - multiset{a[i]}
  {
    assert a == a[..i] + [a[i]] + a[i + 1..];
  }

  lemma RemoveFromLeft(pool: seq<Card>, drawn: seq<Card>, card: Card, allowDuplicates: bool)
    ensures Left(pool, drawn + [card], allowDuplicates) ==
            if allowDuplicates then Left(pool, drawn, allowDuplicates)
            else Left(pool, drawn, allowDuplicates) - multiset{card}
  {
    var a, b := multiset(pool), multiset(drawn);
    assert a - (b + multiset{card}) == a - b - multiset{card};
  }

  lemma ExtendDraw(codes: Codes, table: Table, pool: seq<Card>, drawn: seq<Card>, card: Card, allowDuplicates: bool)
    requires table.slots != [] && LegalDraw(codes, table, pool, drawn, allowDuplicates)
    requires Preferred(codes, table, |drawn|, Left(pool, drawn, allowDuplicates), card)
    ensures LegalDraw(codes, table, pool, drawn + [card], allowDuplicates)
  {
    hide Preferred, Left;
    var more := drawn + [card];
    forall k | 0 <= k < |more| ensures Preferred(codes, table, k, Left(pool, more[..k], allowDuplicates), more[k]) {
      if k < |drawn| {
        assert more[..k] == drawn[..k];
      } else {
        assert more[..k] == drawn;
      }
    }
  }

  lemma IdsExtend(drawn: seq<Card>, card: Card)
    ensures Ids(drawn + [card]) == Ids(drawn) + [card.id] && Ids([]) == []
  {
  }

  /** Draws one card and, unless duplicates are allowed, takes it out of the cards that are left. */
  method DrawNext(codes: Codes, table: Table, k: nat, available: array<Card>, left: nat, allowDuplicates: bool,
      rng: Rng)
    returns (card: Card, rest: nat)
    requires table.slots != [] && 0 < left <= available.Length
    modifies rng, available
    ensures var (i, after) := CardDraw(rng.source, old(rng.next), codes, table, k, old(available[..left]));
      && card == old(available[..left])[i] && rng.next == after
      && rest <= left && available[..rest] == Remaining(old(available[..left]), i, allowDuplicates)
  {
    hide CardDraw;
    var index := DrawCard(codes, table, k, available[..left], rng);
    card, rest := available[index], left;
    if !allowDuplicates {
      Delete(available, left, index);
      rest := left - 1;
    }
  }

  /** Draws the cards from an array of its own that shrinks in place. */
  method DrawCards(codes: Codes, table: Table, pool: array<Card>, rule: IllegalRule, rng: Rng)
    returns (r: Result<seq<string>, Invalid>)
    requires table.slots != []
    modifies rng
    ensures var spec := WithIds(IllegalCards(rng.source, old(rng.next), codes, table, pool[..], rule, 0));
      if spec.Ok? then r == Ok(spec.value.0) && rng.next == spec.value.1 else r == Err(spec.error)
  {
    hide CardDraw, Ids, Remaining;
    var available := new Card[pool.Length](i requires 0 <= i < pool.Length reads pool => pool[i]);
    assert available[..available.Length] == pool[..];
    var left, ids, cardIndex := pool.Length, [], 0;
    ghost var drawn: seq<Card> := [];
    IdsExtend(drawn, Card("", 0, "", []));
    AheadNothing(drawn, IllegalCards(rng.source, rng.next, codes, table, pool[..], rule, 0), 0);
    while cardIndex < rule.cardCount
      invariant 0 <= cardIndex && 0 <= left <= available.Length && ids == Ids(drawn)
      invariant IllegalCards(rng.source, old(rng.next), codes, table, pool[..], rule, 0)
                == Ahead(drawn, IllegalCards(rng.source, rng.next, codes, table, available[..left], rule, cardIndex))
    {
      NextCard(rng.source, rng.next, codes, table, available[..left], rule, cardIndex);
      if left == 0 {
        return Err(NotEnoughCards);
      }
      var card;
      card, left := DrawNext(codes, table, cardIndex, available, left, rule.allowDuplicates, rng);
      AheadTwice(drawn, [card],
          IllegalCards(rng.source, rng.next, codes, table, available[..left], rule, cardIndex + 1));
      IdsExtend(drawn, card);
      ids := ids + [card.id];
      drawn := drawn + [card];
      cardIndex := cardIndex + 1;
    }
    AheadNothing(drawn, Ok((drawn, 0)), rng.next);
    return Ok(ids);
  }

  /** Draws from a copy of the pool; the pool shared by the next boosters is not in `modifies`. */
  method DrawIllegal(codes: Codes, pack: Pack, pool: array<Card>, rule: IllegalRule, rng: Rng)
    returns (r: Result<Opening, Invalid>)
    modifies rng
    ensures Follows(r, rng.next, PoolDraw(rng.source, old(rng.next), codes, pack, pool[..], rule))
  {
    hide IllegalTables, IllegalCards;
    var tables := IllegalTables(pack);
    if tables == [] {
      return Err(NoTable);
    }
    var t := Pick(rng, TableWeights(tables));
    if tables[t].slots == [] {
      return Err(NoSlots);
    }
    var cards := DrawCards(codes, tables[t], pool, rule, rng);
    r := if cards.Ok? then Ok(Opening(tables[t].id, cards.value)) else Err(cards.error);
  }

  // ---------------------------------------------------------------- what a booster holds

  lemma DrawnIsGone(pool: seq<Card>, drawn: seq<Card>, available: seq<Card>, i: nat, allowDuplicates: bool)
    requires i < |available| && multiset(available) == Left(pool, drawn, allowDuplicates)
    ensures var rest := Remaining(available, i, allowDuplicates);
      && multiset(rest) == Left(pool, drawn + [available[i]], allowDuplicates)
      && |rest| == if allowDuplicates then |available| else |available| - 1
  {
    RemoveFromLeft(pool, drawn, available[i], allowDuplicates);
    RemoveOne(available, i);
  }

  /** From any point on: the draw succeeds exactly when enough is left, and every card is drawn from what the
      earlier ones left. */
  lemma {:induction false} IllegalCardsFit(source: nat -> nat, at: nat, codes: Codes, table: Table, pool: seq<Card>,
                                           drawn: seq<Card>, available: seq<Card>, rule: IllegalRule)
    requires table.slots != [] && |drawn| <= rule.cardCount
    requires LegalDraw(codes, table, pool, drawn, rule.allowDuplicates)
    requires multiset(available) == Left(pool, drawn, rule.allowDuplicates)
    ensures var r := IllegalCards(source, at, codes, table, available, rule, |drawn|);
      && (r.Ok? <==> |drawn| == rule.cardCount
                     || (available != [] && (rule.allowDuplicates || rule.cardCount - |drawn| <= |available|)))
      && (r.Ok? ==> |drawn + r.value.0| == rule.cardCount
                    && LegalDraw(codes, table, pool, drawn + r.value.0, rule.allowDuplicates))
    decreases rule.cardCount - |drawn|
  {
    hide LegalDraw, Preferred, CardDraw, Left, Remaining;
    var r := IllegalCards(source, at, codes, table, available, rule, |drawn|);
    if |drawn| == rule.cardCount {
      assert drawn + [] == drawn;
    } else if available != [] {
      var (i, after) := CardDraw(source, at, codes, table, |drawn|, available);
      var card, rest := available[i], Remaining(available, i, rule.allowDuplicates);
      CardDrawPrefers(source, at, codes, table, |drawn|, available);
      ExtendDraw(codes, table, pool, drawn, card, rule.allowDuplicates);
      DrawnIsGone(pool, drawn, available, i, rule.allowDuplicates);
      NextCard(source, at, codes, table, available, rule, |drawn|);
      IllegalCardsFit(source, after, codes, table, pool, drawn + [card], rest, rule);
      var tail := IllegalCards(source, after, codes, table, rest, rule, |drawn| + 1);
      if tail.Ok? {
        assert drawn + r.value.0 == drawn + [card] + tail.value.0;
      }
    }
  }

  lemma NothingDrawn(codes: Codes, table: Table, pool: seq<Card>, allowDuplicates: bool)
    requires table.slots != []
    ensures LegalDraw(codes, table, pool, [], allowDuplicates)
    ensures Left(pool, [], allowDuplicates) == multiset(pool)
  {
  }

  /** Exactly when an illegal draw succeeds, and what it yields. */
  lemma PoolDrawFits(source: nat -> nat, at: nat, codes: Codes, pack: Pack, pool: seq<Card>, rule: IllegalRule)
    returns (table: Table, drawn: seq<Card>)
    requires rule.cardCount >= 0
    ensures IllegalTables(pack) != [] ==> table in IllegalTables(pack)
    ensures var r := PoolDraw(source, at, codes, pack, pool, rule);
      && (r.Ok? <==> IllegalTables(pack) != [] && table.slots != []
                     && (rule.cardCount == 0 || (pool != [] && (rule.allowDuplicates || rule.cardCount <= |pool|))))
      && (r.Ok? ==> |drawn| == rule.cardCount && r.value.0 == Opening(table.id, Ids(drawn))
                    && LegalDraw(codes, table, pool, drawn, rule.allowDuplicates))
  {
    hide LegalDraw, IllegalTables, IllegalCards, Left, Ids;
    table, drawn := Table("", "", 0, []), [];
    var tables := IllegalTables(pack);
    if tables != [] {
      var (t, mid) := PickOf(source, at, TableWeights(tables));
      table := tables[t];
      if table.slots != [] {
        NothingDrawn(codes, table, pool, rule.allowDuplicates);
        IllegalCardsFit(source, mid, codes, table, pool, [], pool, rule);
        var cards := IllegalCards(source, mid, codes, table, pool, rule, 0);
        if cards.Ok? {
          drawn := cards.value.0;
          assert [] + drawn == drawn;
        }
      }
    }
  }

  /** Every card comes from the pool, and without duplicates all are different. */
  lemma LegalDrawsAreDistinct(codes: Codes, table: Table, pool: seq<Card>, drawn: seq<Card>, allowDuplicates: bool)
    requires table.slots != [] && LegalDraw(codes, table, pool, drawn, allowDuplicates)
    requires DistinctIds(pool)
    ensures forall card :: card in drawn ==> card in pool
    ensures !allowDuplicates ==> forall i, j :: 0 <= i < j < |drawn| ==> Ids(drawn)[i] != Ids(drawn)[j]
  {
    hide Offered;
    forall k | 0 <= k < |drawn|
      ensures drawn[k] in pool && drawn[k] in Left(pool, drawn[..k], allowDuplicates)
    {
      assert drawn[k] in multiset(pool);
    }
    if !allowDuplicates {
      forall i, j | 0 <= i < j < |drawn| ensures drawn[i].id != drawn[j].id {
        NeverTwice(pool, drawn, i, j);
      }
    }
  }

  lemma NeverTwice(pool: seq<Card>, drawn: seq<Card>, i: nat, j: nat)
    requires i < j < |drawn| && drawn[i] in pool && drawn[j] in Left(pool, drawn[..j], false)
    requires DistinctIds(pool)
    ensures drawn[i].id != drawn[j].id
  {
    assert drawn[..j][i] in drawn[..j];
    assert drawn[j] in multiset(pool);
    OccursOnce(pool, drawn[i]);
  }

  lemma {:induction false} OccursOnce(pool: seq<Card>, card: Card)
    requires DistinctIds(pool)
    ensures multiset(pool)[card] <= 1
  {
    if pool != [] {
      var rest := pool[1..];
      OccursOnce(rest, card);
      assert pool == [pool[0]] + rest;
      if card == pool[0] {
        assert card !in rest;
      }
    }
  }
}
