/** Rule validation and the dispatch over draw modes, internal/packlab/engine.go:192-310. */
module PackEngine {
  import opened Wrappers
  import opened WeightedIndex
  import opened PackDraw
  import opened IllegalDraw

  const MAX_PACKS := 10
  const MAX_CARDS := 11

  datatype Rule = Rule(
    mode: string, targetPack: string, tableKind: string, rarity: string, returnPackCount: int,
    outputs: seq<seq<Lock>>, illegal: IllegalRule)

  /** Catalogue cards are keyed by id, and every table read from it has a slot
      (internal/catalog/catalog.go:1323-1325). */
  datatype Catalog = Catalog(packs: map<string, Pack>, cards: seq<Card>, codes: Codes)

  ghost predicate Loaded(catalog: Catalog) {
    && (forall id :: id in catalog.packs ==> catalog.packs[id].id == id)
    && (forall id, t :: id in catalog.packs && t in catalog.packs[id].tables ==> t.slots != [])
    && DistinctIds(catalog.cards)
  }

  // ---------------------------------------------------------------- the filtered pool

  predicate Admitted(rule: IllegalRule, card: Card) {
    && (rule.expansions == [] || exists e :: e in card.expansions && e in rule.expansions)
    && (rule.rarities == [] || card.rarity in rule.rarities)
    && (rule.kinds == [] || card.kind in rule.kinds)
  }

  function CardPool(cards: seq<Card>, rule: IllegalRule): seq<Card> {
    if cards == [] then []
    else CardPool(cards[..|cards| - 1], rule) + if Admitted(rule, cards[|cards| - 1]) then [cards[|cards| - 1]] else []
  }

  lemma {:induction false} PoolIsFiltered(cards: seq<Card>, rule: IllegalRule)
    requires DistinctIds(cards)
    ensures forall card :: card in CardPool(cards, rule) <==> card in cards && Admitted(rule, card)
    ensures DistinctIds(CardPool(cards, rule))
  {
    if cards != [] {
      var last := cards[|cards| - 1];
      var front := cards[..|cards| - 1];
      PoolIsFiltered(front, rule);
      forall card | card in CardPool(front, rule) ensures card.id != last.id {
        assert card in front;
      }
      assert cards == front + [last];
    }
  }

  method IllegalCardPool(catalog: Catalog, rule: IllegalRule) returns (pool: array<Card>)
    ensures fresh(pool) && pool[..] == CardPool(catalog.cards, rule)
  {
    var result: seq<Card> := [];
    for i := 0 to |catalog.cards|
      invariant result == CardPool(catalog.cards[..i], rule)
    {
      assert catalog.cards[..i + 1][..i] == catalog.cards[..i];
      if Admitted(rule, catalog.cards[i]) {
        result := result + [catalog.cards[i]];
      }
    }
    assert catalog.cards[..|catalog.cards|] == catalog.cards;
    pool := new Card[|result|](i requires 0 <= i < |result| => result[i]);
    assert pool[..] == result;
  }

  // ---------------------------------------------------------------- validation

  predicate Blank(text: string) {
    forall c :: c in text ==> c in [' ', '\t', '\n', '\r']
  }

  predicate LocksKnown(catalog: Catalog, outputs: seq<seq<Lock>>) {
    forall output, slot :: output in outputs && slot in output && !Blank(slot.cardId)
                           ==> exists card :: card in catalog.cards && card.id == slot.cardId
  }

  predicate Supports(pack: Pack, rule: Rule) {
    && (rule.mode == "table" ==> HasKind(pack, rule.tableKind))
    && (rule.mode == "rarity" ==> CardsForRarity(pack, rule.rarity) != {})
  }

  predicate ModeAccepted(catalog: Catalog, rule: Rule) {
    if rule.mode == "official" then true
    else if rule.mode == "table" || rule.mode == "rarity" then
      if rule.targetPack != "" then rule.targetPack in catalog.packs && Supports(catalog.packs[rule.targetPack], rule)
      else exists id :: id in catalog.packs && Supports(catalog.packs[id], rule)
    else if rule.mode == "illegal" then
      var size := |CardPool(catalog.cards, rule.illegal)|;
      && 0 < rule.returnPackCount <= MAX_PACKS
      && 0 < rule.illegal.cardCount <= MAX_CARDS
      && size != 0
      && (rule.illegal.allowDuplicates || rule.illegal.cardCount <= size)
    else false
  }

  predicate Accepted(catalog: Catalog, rule: Rule) {
    rule.returnPackCount >= 0 && ModeAccepted(catalog, rule) && LocksKnown(catalog, rule.outputs)
  }

  // ---------------------------------------------------------------- drawing

  /** The mode a pack is really drawn in: rules that do not apply to it fall back to the official draw. */
  function EffectiveMode(pack: Pack, rule: Rule): string {
    if rule.mode !in ["official", "illegal"] && rule.targetPack != "" && rule.targetPack != pack.id then "official"
    else if rule.targetPack == "" && rule.mode in ["table", "rarity"] && !Supports(pack, rule) then "official"
    else rule.mode
  }

  /** A table or rarity rule keeps its mode on its target pack, and without a target on every pack that supports it;
      official and illegal rules always do. Everything else is drawn officially. */
  lemma ModeApplies(pack: Pack, rule: Rule)
    ensures EffectiveMode(pack, rule) ==
            if rule.mode == "table" then
              if rule.targetPack == pack.id != ""
                 || (rule.targetPack == "" && exists t :: t in pack.tables && t.kind == rule.tableKind)
              then "table" else "official"
            else if rule.mode == "rarity" then
              if rule.targetPack == pack.id != ""
                 || (rule.targetPack == "" && exists id :: id in CardsForRarity(pack, rule.rarity))
              then "rarity" else "official"
            else if rule.mode != "illegal" && rule.targetPack != "" && rule.targetPack != pack.id then "official"
            else rule.mode
  {
    hide CardsForRarity;
  }

  /** The configured outputs are used in their order, over and over. */
  lemma OutputsRepeat(outputs: seq<seq<Lock>>, k: nat)
    ensures outputs == [] ==> ConfiguredOutput(outputs, k) == []
    ensures k < |outputs| ==> ConfiguredOutput(outputs, k) == outputs[k]
    ensures outputs != [] ==> ConfiguredOutput(outputs, k + |outputs|) == ConfiguredOutput(outputs, k)
  {
    if outputs != [] {
      var n := |outputs|;
      assert k + n == (k / n + 1) * n + k % n;
      RemainderIs(k + n, n, k / n + 1, k % n);
      if k < n {
        RemainderIs(k, n, 0, k);
      }
    }
  }

  lemma RemainderIs(x: nat, n: nat, q: int, r: int)
    requires n > 0 && x == q * n + r && 0 <= r < n
    ensures x % n == r
  {
    var d := x / n - q;
    assert x == x / n * n + x % n;
    assert d * n == r - x % n;
    FarMultiples(d, n);
  }

  lemma FarMultiples(d: int, n: int)
    requires n > 0
    ensures (d >= 1 ==> d * n >= n) && (d <= -1 ==> d * n <= -n)
  {
  }

  function Clamp(x: int, high: int): int {
    if x < 1 then 1 else if x > high then high else x
  }

  /** No admissible number is nearer to the configured one. */
  lemma ClampIsNearest(x: int, high: int, y: int)
    requires 1 <= y <= high
    ensures 1 <= Clamp(x, high) <= high && Distance(Clamp(x, high), x) <= Distance(y, x)
  {
  }

  function Distance(a: int, b: int): nat {
    if a < b then b - a else a - b
  }

  function BoosterCount(mode: string, rule: Rule, requested: int): int {
    if mode != "illegal" then requested else if requested == 10 then Clamp(rule.returnPackCount, MAX_PACKS) else 1
  }

  ghost predicate IllegalOpening(catalog: Catalog, pack: Pack, rule: IllegalRule, opening: Opening) {
    exists table, drawn ::
      && table in IllegalTables(pack) && table.slots != []
      && |drawn| == Clamp(rule.cardCount, MAX_CARDS)
      && opening == Opening(table.id, Ids(drawn))
      && LegalDraw(catalog.codes, table, CardPool(catalog.cards, rule), drawn, rule.allowDuplicates)
  }

  ghost predicate OfficialOpening(pack: Pack, opening: Opening) {
    exists table :: table in pack.tables && table.weight > 0 && FromTable(table, [], opening)
  }

  /** From the first table of the kind, unless all five outputs are fixed. */
  ghost predicate TableOpening(pack: Pack, kind: string, locks: seq<Lock>, opening: Opening) {
    && KindTables(pack.tables, kind) != []
    && opening.tableId == KindTables(pack.tables, kind)[0].id
    && if FullyLocked(locks) then |opening.cards| == 5 && forall i :: 0 <= i < 5 ==> opening.cards[i] == locks[i].cardId
       else FromTable(KindTables(pack.tables, kind)[0], locks, opening)
  }

  ghost predicate RarityOpening(pack: Pack, rarity: string, locks: seq<Lock>, opening: Opening) {
    && PositiveTables(pack.tables) != []
    && opening.tableId == PositiveTables(pack.tables)[0].id
    && |opening.cards| == |PositiveTables(pack.tables)[0].slots|
    && forall i :: 0 <= i < |opening.cards| ==>
         opening.cards[i] in CardsForRarity(pack, rarity) && (Locked(locks, i) ==> opening.cards[i] == locks[i].cardId)
  }

  ghost predicate Fits(catalog: Catalog, pack: Pack, rule: Rule, index: nat, opening: Opening) {
    var mode, locks := EffectiveMode(pack, rule), ConfiguredOutput(rule.outputs, index);
    if mode == "official" then OfficialOpening(pack, opening)
    else if mode == "table" then TableOpening(pack, rule.tableKind, locks, opening)
    else if mode == "rarity" then RarityOpening(pack, rule.rarity, locks, opening)
    else mode == "illegal" && IllegalOpening(catalog, pack, rule.illegal, opening)
  }

  /** When the pool suffices for every booster of an illegal draw. */
  predicate PoolSuffices(catalog: Catalog, rule: IllegalRule) {
    var size := |CardPool(catalog.cards, rule)|;
    size > 0 && (rule.allowDuplicates || Clamp(rule.cardCount, MAX_CARDS) <= size)
  }

  /** When booster number `index` cannot fail, whatever the random values. */
  ghost predicate Drawable(catalog: Catalog, pack: Pack, rule: Rule, index: nat) {
    var mode, locks := EffectiveMode(pack, rule), ConfiguredOutput(rule.outputs, index);
    if mode == "official" then OfficialDrawable(pack)
    else if mode == "table" then TableModeDrawable(pack, rule.tableKind, locks)
    else if mode == "rarity" then RarityDrawable(pack, rule.rarity, locks)
    else mode == "illegal" && pack.tables != [] && PoolSuffices(catalog, rule.illegal)
  }

  ghost predicate AllDrawable(catalog: Catalog, pack: Pack, rule: Rule, index: nat, count: nat) {
    forall k :: index <= k < count ==> Drawable(catalog, pack, rule, k)
  }

  // ---------------------------------------------------------------- the draw as a function of the seed

  function Clamped(rule: IllegalRule): IllegalRule {
    rule.(cardCount := Clamp(rule.cardCount, MAX_CARDS))
  }

  /** Booster number `index`, drawn from place `at` of the random stream on. */
  ghost function OneDraw(source: nat -> nat, at: nat, catalog: Catalog, pack: Pack, rule: Rule, index: nat)
    : Result<(Opening, nat), Invalid>
  {
    var mode, locks := EffectiveMode(pack, rule), ConfiguredOutput(rule.outputs, index);
    if mode == "official" then OfficialDraw(source, at, pack)
    else if mode == "table" then TableModeDraw(source, at, pack, rule.tableKind, locks)
    else if mode == "rarity" then RarityDraw(source, at, pack, rule.rarity, locks)
    else if mode == "illegal" then
      PoolDraw(source, at, catalog.codes, pack, CardPool(catalog.cards, rule.illegal), Clamped(rule.illegal))
    else Err(UnknownMode)
  }

  ghost function Boosters(source: nat -> nat, at: nat, catalog: Catalog, pack: Pack, rule: Rule, index: nat, count: nat)
    : Draws<Opening>
    decreases count - index
  {
    if index >= count then Ok(([], at)) else
      var first := OneDraw(source, at, catalog, pack, rule, index);
      if first.Err? then Err(first.error)
      else Ahead([first.value.0], Boosters(source, first.value.1, catalog, pack, rule, index + 1, count))
  }

  ghost function Drawing(source: nat -> nat, at: nat, catalog: Catalog, pack: Pack, rule: Rule, requested: nat)
    : Draws<Opening>
  {
    var mode := EffectiveMode(pack, rule);
    if mode == "illegal" && CardPool(catalog.cards, rule.illegal) == [] then Err(EmptyPool)
    else Boosters(source, at, catalog, pack, rule, 0, BoosterCount(mode, rule, requested))
  }

  method DrawOne(catalog: Catalog, pack: Pack, rule: Rule, mode: string, index: nat, pool: array<Card>, rng: Rng)
    returns (r: Result<Opening, Invalid>)
    requires mode == EffectiveMode(pack, rule)
    requires mode == "illegal" ==> pool[..] == CardPool(catalog.cards, rule.illegal)
    modifies rng
    ensures Follows(r, rng.next, OneDraw(rng.source, old(rng.next), catalog, pack, rule, index))
  {
    hide EffectiveMode, CardPool, OfficialDraw, TableModeDraw, RarityDraw, PoolDraw;
    if mode == "official" {
      r := DrawOfficial(pack, rng);
    } else if mode == "table" {
      r := DrawTableMode(pack, rule.tableKind, ConfiguredOutput(rule.outputs, index), rng);
    } else if mode == "rarity" {
      r := DrawRarityMode(pack, rule.rarity, ConfiguredOutput(rule.outputs, index), rng);
    } else if mode == "illegal" {
      r := DrawIllegal(catalog.codes, pack, pool, Clamped(rule.illegal), rng);
    } else {
      r := Err(UnknownMode);
    }
  }

  lemma IllegalTablesAreSlotted(pack: Pack)
    requires forall t :: t in pack.tables ==> t.slots != []
    ensures IllegalTables(pack) == [] <==> pack.tables == []
    ensures forall t :: t in IllegalTables(pack) ==> t in pack.tables && t.slots != []
  {
  }

  method Draw(catalog: Catalog, pack: Pack, rule: Rule, requested: nat, rng: Rng)
    returns (r: Result<seq<Opening>, Invalid>)
    modifies rng
    ensures var spec := Drawing(rng.source, old(rng.next), catalog, pack, rule, requested);
      r == if spec.Ok? then Ok(spec.value.0) else Err(spec.error)
  {
    hide CardPool, OneDraw;
    var mode := rule.mode;
    if mode != "official" && mode != "illegal" && rule.targetPack != "" && rule.targetPack != pack.id {
      mode := "official";
    }
    if rule.targetPack == "" {
      if mode == "table" && !HasKind(pack, rule.tableKind) {
        mode := "official";
      }
      if mode == "rarity" && CardsForRarity(pack, rule.rarity) == {} {
        mode := "official";
      }
    }
    assert mode == EffectiveMode(pack, rule);
    hide EffectiveMode;
    var count := requested;
    var pool := new Card[0];
    if mode == "illegal" {
      count := 1;
      if requested == 10 {
        count := Clamp(rule.returnPackCount, MAX_PACKS);
      }
      pool := IllegalCardPool(catalog, rule.illegal);
      if pool.Length == 0 {
        return Err(EmptyPool);
      }
    }
    var result := [];
    AheadNothing(result, Boosters(rng.source, rng.next, catalog, pack, rule, 0, count), 0);
    for packIndex := 0 to count
      invariant mode == "illegal" ==> pool[..] == CardPool(catalog.cards, rule.illegal)
      invariant Boosters(rng.source, old(rng.next), catalog, pack, rule, 0, count)
                == Ahead(result, Boosters(rng.source, rng.next, catalog, pack, rule, packIndex, count))
    {
      var drawn := DrawOne(catalog, pack, rule, mode, packIndex, pool, rng);
      if drawn.Err? {
        return Err(drawn.error);
      }
      AheadTwice(result, [drawn.value], Boosters(rng.source, rng.next, catalog, pack, rule, packIndex + 1, count));
      result := result + [drawn.value];
    }
    AheadNothing(result, Ok((result, 0)), rng.next);
    return Ok(result);
  }

  // ---------------------------------------------------------------- what is drawn

  /** A drawable booster never fails; in rarity and illegal mode no other one ever succeeds. */
  lemma OneDrawFits(source: nat -> nat, at: nat, catalog: Catalog, pack: Pack, rule: Rule, index: nat)
    requires Loaded(catalog) && pack.id in catalog.packs && catalog.packs[pack.id] == pack
    ensures var mode, r := EffectiveMode(pack, rule), OneDraw(source, at, catalog, pack, rule, index);
      && (r.Ok? ==> Fits(catalog, pack, rule, index, r.value.0))
      && (Drawable(catalog, pack, rule, index) ==> r.Ok?)
      && (mode !in ["official", "table"] && r.Ok? ==> Drawable(catalog, pack, rule, index))
  {
    hide LegalDraw, IllegalTables, CardPool, FromTable, CardsForRarity, ConfiguredOutput, PositiveTables, SlotsDrawable,
         EffectiveMode, OfficialDraw, TableModeDraw, RarityDraw, PoolDraw, OfficialDrawable, TableModeDrawable;
    var mode, locks := EffectiveMode(pack, rule), ConfiguredOutput(rule.outputs, index);
    if mode == "official" {
      OfficialDrawFits(source, at, pack);
    } else if mode == "table" {
      TableModeFits(source, at, pack, rule.tableKind, locks);
    } else if mode == "rarity" {
      RarityDrawFits(source, at, pack, rule.rarity, locks);
    } else if mode == "illegal" {
      var pool := CardPool(catalog.cards, rule.illegal);
      var table, drawn := PoolDrawFits(source, at, catalog.codes, pack, pool, Clamped(rule.illegal));
      IllegalTablesAreSlotted(pack);
    }
  }

  lemma TableModeFits(source: nat -> nat, at: nat, pack: Pack, kind: string, locks: seq<Lock>)
    ensures var r := TableModeDraw(source, at, pack, kind, locks);
      && (r.Ok? ==> TableOpening(pack, kind, locks, r.value.0))
      && (TableModeDrawable(pack, kind, locks) ==> r.Ok?)
  {
    hide TableDraw, SlotCard, SlotsDrawable;
    var tables := KindTables(pack.tables, kind);
    if tables != [] {
      TableDrawFits(source, at, tables[0], locks);
    }
  }

  lemma {:induction false} BoostersFit(source: nat -> nat, at: nat, catalog: Catalog, pack: Pack, rule: Rule,
      index: nat, count: nat)
    requires Loaded(catalog) && pack.id in catalog.packs && catalog.packs[pack.id] == pack && index <= count
    ensures var mode, r := EffectiveMode(pack, rule), Boosters(source, at, catalog, pack, rule, index, count);
      && (r.Ok? ==> |r.value.0| == count - index
                    && forall k :: 0 <= k < count - index ==> Fits(catalog, pack, rule, index + k, r.value.0[k]))
      && (AllDrawable(catalog, pack, rule, index, count) ==> r.Ok?)
      && (mode !in ["official", "table"] && r.Ok? ==> AllDrawable(catalog, pack, rule, index, count))
    decreases count - index
  {
    hide Fits, OneDraw, EffectiveMode, Drawable, Loaded;
    if index < count {
      OneDrawFits(source, at, catalog, pack, rule, index);
      var first := OneDraw(source, at, catalog, pack, rule, index);
      var r := Boosters(source, at, catalog, pack, rule, index, count);
      if first.Ok? {
        BoostersFit(source, first.value.1, catalog, pack, rule, index + 1, count);
        var rest := Boosters(source, first.value.1, catalog, pack, rule, index + 1, count);
        if r.Ok? {
          forall k | 0 <= k < count - index ensures Fits(catalog, pack, rule, index + k, r.value.0[k]) {
            assert k > 0 ==> r.value.0[k] == rest.value.0[k - 1]
                             && Fits(catalog, pack, rule, index + 1 + (k - 1), rest.value.0[k - 1]);
          }
        }
      }
    }
  }

  /** The number of boosters, what each holds in the effective mode, and when a draw cannot fail; in rarity and
      illegal mode a draw succeeds if and only if every booster is drawable. */
  lemma DrawingFits(source: nat -> nat, at: nat, catalog: Catalog, pack: Pack, rule: Rule, requested: nat)
    requires Loaded(catalog) && pack.id in catalog.packs && catalog.packs[pack.id] == pack && requested > 0
    ensures var mode, r := EffectiveMode(pack, rule), Drawing(source, at, catalog, pack, rule, requested);
      var count := BoosterCount(mode, rule, requested);
      && (r.Ok? ==> |r.value.0| == count && forall k :: 0 <= k < count ==> Fits(catalog, pack, rule, k, r.value.0[k]))
      && (AllDrawable(catalog, pack, rule, 0, count) ==> r.Ok?)
      && (mode !in ["official", "table"] && r.Ok? ==> AllDrawable(catalog, pack, rule, 0, count))
  {
    hide Fits, Boosters, EffectiveMode, CardPool, Loaded, OfficialDrawable, TableModeDrawable, RarityDrawable;
    var count := BoosterCount(EffectiveMode(pack, rule), rule, requested);
    BoostersFit(source, at, catalog, pack, rule, 0, count);
    var r := Boosters(source, at, catalog, pack, rule, 0, count);
    if r.Ok? {
      forall k | 0 <= k < count ensures Fits(catalog, pack, rule, k, r.value.0[k]) {
        assert Fits(catalog, pack, rule, 0 + k, r.value.0[k]);
      }
    }
    if EffectiveMode(pack, rule) == "illegal" && AllDrawable(catalog, pack, rule, 0, count) {
      assert Drawable(catalog, pack, rule, 0);
    }
  }

  /** Validation admits exactly the illegal rules whose settings are used unchanged and whose pool suffices. */
  lemma AcceptedIllegalRule(catalog: Catalog, rule: Rule)
    requires rule.mode == "illegal" && LocksKnown(catalog, rule.outputs)
    ensures Accepted(catalog, rule) <==>
            && Clamp(rule.returnPackCount, MAX_PACKS) == rule.returnPackCount
            && Clamp(rule.illegal.cardCount, MAX_CARDS) == rule.illegal.cardCount
            && PoolSuffices(catalog, rule.illegal)
    ensures Accepted(catalog, rule) <==>
            && 1 <= rule.returnPackCount <= 10 && 1 <= rule.illegal.cardCount <= 11
            && var size := |CardPool(catalog.cards, rule.illegal)|;
               size > 0 && (rule.illegal.allowDuplicates || rule.illegal.cardCount <= size)
  {
    hide CardPool;
  }

  function NormalizedCount(value: int): int {
    if value == 10 then 10 else 1
  }

  /** The boosters of a preview depend on nothing but the catalogue, the rule and the seed. */
  method Preview(catalog: Catalog, packId: string, rule: Rule, value: int, source: nat -> nat)
    returns (r: Result<seq<Opening>, Invalid>)
    ensures packId !in catalog.packs ==> r == Err(NoSuchPack)
    ensures packId in catalog.packs ==>
              var spec := Drawing(source, 0, catalog, catalog.packs[packId], rule, NormalizedCount(value));
              r == if spec.Ok? then Ok(spec.value.0) else Err(spec.error)
  {
    if packId !in catalog.packs {
      return Err(NoSuchPack);
    }
    var rng := new Rng(source);
    r := Draw(catalog, catalog.packs[packId], rule, NormalizedCount(value), rng);
  }

  /** What validation is worth. An accepted illegal rule always draws from a pack of the catalogue that has tables:
      a x1 action one booster, a x10 action the configured number, each with the configured number of cards from the
      filtered pool, all different unless duplicates are allowed. A rarity rule draws if and only if the pack has a
      positive table and every lock that a drawn booster uses on it names a card of the rarity. Any other rule draws
      when its boosters are drawable. */
  lemma AcceptedRulesDraw(catalog: Catalog, packId: string, rule: Rule, value: int, source: nat -> nat)
    requires Loaded(catalog) && Accepted(catalog, rule) && packId in catalog.packs
    ensures var pack, count := catalog.packs[packId], if value == 10 then 10 else 1;
      var mode, r := EffectiveMode(pack, rule), Drawing(source, 0, catalog, pack, rule, NormalizedCount(value));
      && (mode == "illegal" ==> (r.Ok? <==> pack.tables != []))
      && (mode == "illegal" && r.Ok? ==>
            |r.value.0| == (if value == 10 then rule.returnPackCount else 1)
            && forall k :: 0 <= k < |r.value.0| ==> FilteredBooster(catalog, rule.illegal, r.value.0[k]))
      && (mode == "rarity" ==> (r.Ok? <==> PositiveTables(pack.tables) != [] && LocksInRarity(pack, rule, count)))
      && (AllDrawable(catalog, pack, rule, 0, count) ==> r.Ok?)
      && (mode != "illegal" && r.Ok? ==>
            |r.value.0| == count && forall k :: 0 <= k < count ==> Fits(catalog, pack, rule, k, r.value.0[k]))
  {
    hide CardPool, LegalDraw, Drawing, IllegalOpening, FilteredBooster, CardsForRarity, LocksKnown, PositiveTables,
         OfficialDrawable, TableModeDrawable, ConfiguredOutput;
    var pack, count := catalog.packs[packId], NormalizedCount(value);
    var mode, r := EffectiveMode(pack, rule), Drawing(source, 0, catalog, pack, rule, count);
    DrawingFits(source, 0, catalog, pack, rule, count);
    if mode == "illegal" {
      AcceptedIllegalRule(catalog, rule);
      assert pack.tables != [] <==> Drawable(catalog, pack, rule, 0);
      if r.Ok? {
        forall k | 0 <= k < |r.value.0| ensures FilteredBooster(catalog, rule.illegal, r.value.0[k]) {
          OpeningsAreFiltered(catalog, pack, rule.illegal, r.value.0[k]);
        }
      }
    } else if mode == "rarity" {
      RarityRuleDrawable(catalog, pack, rule, count);
    }
  }

  /** Every lock that one of the boosters uses on a slot of the first positive table names a card of the rarity. */
  ghost predicate LocksInRarity(pack: Pack, rule: Rule, count: nat)
    requires PositiveTables(pack.tables) != []
  {
    forall k, i :: 0 <= k < count && 0 <= i < |PositiveTables(pack.tables)[0].slots|
                   && Locked(ConfiguredOutput(rule.outputs, k), i)
                   ==> ConfiguredOutput(rule.outputs, k)[i].cardId in CardsForRarity(pack, rule.rarity)
  }

  lemma RarityRuleDrawable(catalog: Catalog, pack: Pack, rule: Rule, count: nat)
    requires EffectiveMode(pack, rule) == "rarity" && CardsForRarity(pack, rule.rarity) != {} && count > 0
    ensures AllDrawable(catalog, pack, rule, 0, count) <==>
            PositiveTables(pack.tables) != [] && LocksInRarity(pack, rule, count)
  {
    hide CardsForRarity, PositiveTables, ConfiguredOutput, EffectiveMode;
    if AllDrawable(catalog, pack, rule, 0, count) {
      assert Drawable(catalog, pack, rule, 0);
      forall k | 0 <= k < count ensures RarityDrawable(pack, rule.rarity, ConfiguredOutput(rule.outputs, k)) {
        assert Drawable(catalog, pack, rule, k);
      }
    }
  }

  const RARITY_TABLE := Table("T", "normal", 1, [Slot([Pool("R", 1, [WeightedCard("A", 1)])])])

  const RARITY_PACK := Pack("P", [RARITY_TABLE])

  const TWO_RARITIES := Catalog(map["P" := RARITY_PACK], [Card("A", 1, "", []), Card("B", 2, "", [])], map[])

  const FOREIGN_LOCK := Rule("rarity", "", "", "R", 1, [[Lock("B", true)]], IllegalRule(1, false, [], [], []))

  /** Validation only asks that a locked card exists: this accepted rarity rule locks a card of another rarity, and
      no seed ever draws it, although the pack itself can always be drawn. */
  lemma AcceptedRarityRuleCanFail(value: int, source: nat -> nat)
    ensures Loaded(TWO_RARITIES) && Accepted(TWO_RARITIES, FOREIGN_LOCK) && OfficialDrawable(RARITY_PACK)
    ensures Drawing(source, 0, TWO_RARITIES, RARITY_PACK, FOREIGN_LOCK, NormalizedCount(value)).Err?
  {
    hide Drawing, CardsForRarity, PositiveTables, OfficialDrawable, CardPool;
    RarityPackFacts();
    assert TWO_RARITIES.cards[1].id == "B";
    assert Supports(TWO_RARITIES.packs["P"], FOREIGN_LOCK);
    AcceptedRulesDraw(TWO_RARITIES, "P", FOREIGN_LOCK, value, source);
    assert Locked(ConfiguredOutput(FOREIGN_LOCK.outputs, 0), 0);
  }

  lemma RarityPackFacts()
    ensures CardsForRarity(RARITY_PACK, "R") == {"A"}
    ensures PositiveTables(RARITY_PACK.tables) == [RARITY_TABLE]
    ensures OfficialDrawable(RARITY_PACK)
  {
    var keep := (t: Table) => t.weight > 0;
    assert Kept([RARITY_TABLE], keep) == [RARITY_TABLE];
  }

  /** A catalogue card with this id passes the filters of the rule. */
  ghost predicate Passes(catalog: Catalog, rule: IllegalRule, id: string) {
    exists card :: card in catalog.cards && card.id == id
      && (rule.expansions == [] || exists e :: e in rule.expansions && e in card.expansions)
      && (rule.rarities == [] || card.rarity in rule.rarities)
      && (rule.kinds == [] || card.kind in rule.kinds)
  }

  ghost predicate FilteredBooster(catalog: Catalog, rule: IllegalRule, opening: Opening) {
    && |opening.cards| == rule.cardCount
    && (forall id :: id in opening.cards ==> Passes(catalog, rule, id))
    && (!rule.allowDuplicates ==> forall i, j :: 0 <= i < j < |opening.cards| ==> opening.cards[i] != opening.cards[j])
  }

  lemma OpeningsAreFiltered(catalog: Catalog, pack: Pack, rule: IllegalRule, opening: Opening)
    requires Loaded(catalog) && IllegalOpening(catalog, pack, rule, opening)
    requires Clamp(rule.cardCount, MAX_CARDS) == rule.cardCount
    ensures FilteredBooster(catalog, rule, opening)
  {
    hide LegalDraw, Admitted, CardPool, IllegalTables;
    var table, drawn: seq<Card> :| table in IllegalTables(pack) && table.slots != [] && |drawn| == rule.cardCount
                        && opening == Opening(table.id, Ids(drawn))
                        && LegalDraw(catalog.codes, table, CardPool(catalog.cards, rule), drawn, rule.allowDuplicates);
    PoolIsFiltered(catalog.cards, rule);
    LegalDrawsAreDistinct(catalog.codes, table, CardPool(catalog.cards, rule), drawn, rule.allowDuplicates);
    forall id | id in opening.cards ensures Passes(catalog, rule, id) {
      var k :| 0 <= k < |drawn| && drawn[k].id == id;
      assert drawn[k] in CardPool(catalog.cards, rule);
      AdmittedPasses(catalog, rule, drawn[k]);
    }
  }

  lemma AdmittedPasses(catalog: Catalog, rule: IllegalRule, card: Card)
    requires card in catalog.cards && Admitted(rule, card)
    ensures Passes(catalog, rule, card.id)
  {
    if rule.expansions != [] {
      var e :| e in card.expansions && e in rule.expansions;
    }
  }
}
