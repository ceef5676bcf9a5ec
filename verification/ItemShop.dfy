/** Shop purchases, internal/store/item_shop.go:28-138. */
module ItemShop {
  import opened Wrappers
  import opened WeightedIndex
  import opened Sums

  /** A quantity column of a player. */
  datatype Stock =
    | Currency(id: string)
    | Item(kind: string, id: string)
    | PokeGold
    | Card(id: string)
    | CardInLanguage(id: string, language: int)
    | Decoration(id: string)

  datatype Unlock = RentalDeck(id: string) | ThemeRecipe(id: string)

  datatype Change = Change(kind: string, id: string, subId: string, amount: int)

  datatype Purchase = Purchase(
    shop: string, product: string, transaction: string, amount: int, maxTotal: int, price: Change, rewards: seq<Change>)

  datatype Bought = Bought(shop: string, product: string, amount: int)

  datatype Tables = Tables(
    versions: map<string, int>,                      // players.state_version
    languages: map<string, int>,                     // the language of each player with a supported locale
    stock: map<(string, Stock), int>,
    unlocks: set<(string, Unlock)>,
    transactions: map<(string, string), Bought>)     // by player and transaction id

  datatype Error = InvalidPurchase | PayloadChanged | PurchaseLimit | UnsupportedPrice | UnsupportedReward
                 | InsufficientInventory | NoLanguage | ForeignKey

  function Quantity(db: Tables, player: string, key: Stock): int {
    if (player, key) in db.stock then db.stock[(player, key)] else 0
  }

  // ---------------------------------------------------------------- inventory changes

  function PriceKey(change: Change): Option<Stock> {
    if change.kind == "currency" then Some(Currency(change.id))
    else if change.kind == "item" then Some(Item(change.subId, change.id))
    else if change.kind == "poke_gold" then Some(PokeGold)
    else None
  }

  predicate Empty(change: Change) {
    change.amount <= 0 || change.kind == ""
  }

  function Charge(db: Tables, player: string, price: Change): Result<Tables, Error> {
    if Empty(price) then Ok(db)
    else if PriceKey(price).None? then Err(UnsupportedPrice)
    else
      var key := PriceKey(price).value;
      if (player, key) in db.stock && db.stock[(player, key)] >= price.amount
      then Ok(db.(stock := db.stock[(player, key) := db.stock[(player, key)] - price.amount]))
      else Err(InsufficientInventory)
  }

  function Upsert(db: Tables, player: string, key: Stock, amount: int): Tables {
    db.(stock := db.stock[(player, key) := Quantity(db, player, key) + amount])
  }

  /** The single quantity a currency, item or decoration reward adds to. */
  function RewardKey(change: Change): Option<Stock> {
    if change.kind == "currency" then Some(Currency(change.id))
    else if change.kind == "item" then Some(Item(change.subId, change.id))
    else if change.kind == "profile_decoration" then Some(Decoration(change.id))
    else None
  }

  function Grant(db: Tables, player: string, reward: Change): Result<Tables, Error> {
    if Empty(reward) then Ok(db)
    else if reward.kind == "poke_gold" then
      // an UPDATE, not an upsert: without a row nothing is granted
      Ok(if (player, PokeGold) in db.stock then Upsert(db, player, PokeGold, reward.amount) else db)
    else if reward.kind !in ["card", "currency", "item", "profile_decoration", "rental_deck", "theme_deck_recipe"] then
      Err(UnsupportedReward)
    else if player !in db.versions then Err(ForeignKey)
    else if reward.kind == "card" then
      if player !in db.languages then Err(NoLanguage)
      else
        var counted := Upsert(db, player, Card(reward.id), reward.amount);
        Ok(Upsert(counted, player, CardInLanguage(reward.id, db.languages[player]), reward.amount))
    else if RewardKey(reward).Some? then Ok(Upsert(db, player, RewardKey(reward).value, reward.amount))
    else if reward.kind == "rental_deck" then Ok(db.(unlocks := db.unlocks + {(player, RentalDeck(reward.id))}))
    else Ok(db.(unlocks := db.unlocks + {(player, ThemeRecipe(reward.id))}))
  }

  function Times(change: Change, n: int): Change {
    change.(amount := Wrap64(change.amount * n))
  }

  function GrantAll(db: Tables, player: string, rewards: seq<Change>, n: int): Result<Tables, Error> {
    if rewards == [] then Ok(db) else
      var rest := GrantAll(db, player, rewards[..|rewards| - 1], n);
      if rest.Err? then rest else Grant(rest.value, player, Times(rewards[|rewards| - 1], n))
  }

  // ---------------------------------------------------------------- what a purchase is worth

  function PriceOf(price: Change, key: Stock): int {
    if !Empty(price) && PriceKey(price) == Some(key) then price.amount else 0
  }

  /** The additive quantities a reward is for. */
  predicate Rewarded(reward: Change, key: Stock, language: int) {
    match key
    case Currency(id) => reward.kind == "currency" && id == reward.id
    case Item(kind, id) => reward.kind == "item" && kind == reward.subId && id == reward.id
    case PokeGold => reward.kind == "poke_gold"
    case Card(id) => reward.kind == "card" && id == reward.id
    case CardInLanguage(id, l) => reward.kind == "card" && id == reward.id && l == language
    case Decoration(id) => reward.kind == "profile_decoration" && id == reward.id
  }

  function RewardsOf(rewards: seq<Change>, n: int, key: Stock, language: int): int {
    if rewards == [] then 0 else
      var reward := Times(rewards[|rewards| - 1], n);
      RewardsOf(rewards[..|rewards| - 1], n, key, language)
      + if !Empty(reward) && Rewarded(reward, key, language) then reward.amount else 0
  }

  function LanguageOf(db: Tables, player: string): int {
    if player in db.languages then db.languages[player] else 0
  }

  // ---------------------------------------------------------------- the transaction

  ghost function ProductRows(db: Tables, player: string, shop: string, product: string): map<(string, string), int> {
    map id | id in db.transactions && id.0 == player
             && db.transactions[id].shop == shop && db.transactions[id].product == product :: db.transactions[id].amount
  }

  ghost function PurchaseCount(db: Tables, player: string, shop: string, product: string): int {
    Sum(ProductRows(db, player, shop, product))
  }

  ghost function Attempt(db: Tables, player: string, p: Purchase): Result<Tables, Error> {
    if p.transaction == "" || p.shop == "" || p.product == "" || p.amount <= 0 then Err(InvalidPurchase)
    else if (player, p.transaction) in db.transactions then
      var known := db.transactions[(player, p.transaction)];
      if known.product != p.product || known.amount != p.amount then Err(PayloadChanged) else Ok(db)
    else if p.maxTotal > 0 && Wrap64(PurchaseCount(db, player, p.shop, p.product) + p.amount) > p.maxTotal then
      Err(PurchaseLimit)
    else
      var paid := Charge(db, player, Times(p.price, p.amount));
      if paid.Err? then paid else
        var granted := GrantAll(paid.value, player, p.rewards, p.amount);
        if granted.Err? then granted
        else if player !in db.versions then Err(ForeignKey)
        else Ok(granted.value.(
                  transactions := db.transactions[(player, p.transaction) := Bought(p.shop, p.product, p.amount)],
                  versions := db.versions[player := db.versions[player] + 1]))
  }

  /** The purchase went through for the first time. */
  ghost predicate Fresh(db: Tables, player: string, p: Purchase) {
    (player, p.transaction) !in db.transactions && Attempt(db, player, p).Ok?
  }

  ghost function Step(db: Tables, player: string, p: Purchase): Tables {
    if Attempt(db, player, p).Ok? then Attempt(db, player, p).value else db
  }

  class Store {
    var db: Tables

    constructor (db: Tables)
      ensures this.db == db
    {
      this.db := db;
    }

    method CountPurchases(tx: Tables, player: string, shop: string, product: string) returns (count: int)
      ensures count == PurchaseCount(tx, player, shop, product)
    {
      count := 0;
      var pending := tx.transactions.Keys;
      ghost var rows := ProductRows(tx, player, shop, product);
      while pending != {}
        invariant pending <= tx.transactions.Keys
        invariant count == Sum(rows - pending)
        decreases pending
      {
        var id :| id in pending;
        ghost var before := rows - pending;
        pending := pending - {id};
        var row := tx.transactions[id];
        if id.0 == player && row.shop == shop && row.product == product {
          count := count + row.amount;
          SumAfterWrite(before, id, row.amount);
          assert rows - pending == before[id := row.amount];
        } else {
          assert rows - pending == before;
        }
      }
      assert rows - {} == rows;
    }

    /** Prices need a row with enough in it; rewards create their row, except poke gold. */
    method ChangeShopInventory(tx: Tables, player: string, change: Change, charge: bool)
      returns (r: Result<Tables, Error>)
      ensures r == if charge then Charge(tx, player, change) else Grant(tx, player, change)
    {
      if change.amount <= 0 || change.kind == "" {
        return Ok(tx);
      }
      if charge {
        var key: Stock;
        match change.kind {
          case "currency" => key := Currency(change.id);
          case "item" => key := Item(change.subId, change.id);
          case "poke_gold" => key := PokeGold;
          case _ => return Err(UnsupportedPrice);
        }
        if (player, key) !in tx.stock || tx.stock[(player, key)] < change.amount {
          return Err(InsufficientInventory);
        }
        return Ok(tx.(stock := tx.stock[(player, key) := tx.stock[(player, key)] - change.amount]));
      }
      if change.kind == "poke_gold" {
        return Ok(if (player, PokeGold) in tx.stock then Upsert(tx, player, PokeGold, change.amount) else tx);
      }
      if change.kind !in ["card", "currency", "item", "profile_decoration", "rental_deck", "theme_deck_recipe"] {
        return Err(UnsupportedReward);
      }
      if player !in tx.versions {
        return Err(ForeignKey);
      }
      match change.kind {
        case "card" =>
          var counted := Upsert(tx, player, Card(change.id), change.amount);
          if player !in counted.languages {
            return Err(NoLanguage);
          }
          return Ok(Upsert(counted, player, CardInLanguage(change.id, counted.languages[player]), change.amount));
        case "currency" => return Ok(Upsert(tx, player, Currency(change.id), change.amount));
        case "item" => return Ok(Upsert(tx, player, Item(change.subId, change.id), change.amount));
        case "profile_decoration" => return Ok(Upsert(tx, player, Decoration(change.id), change.amount));
        case "rental_deck" => return Ok(tx.(unlocks := tx.unlocks + {(player, RentalDeck(change.id))}));
        case _ => return Ok(tx.(unlocks := tx.unlocks + {(player, ThemeRecipe(change.id))}));
      }
    }

    method CommitShopPurchase(player: string, p: Purchase) returns (r: Result<(int, bool), Error>)
      modifies this
      ensures r.Ok? <==> Attempt(old(db), player, p).Ok?
      ensures r.Err? ==> r.error == Attempt(old(db), player, p).error
      ensures db == Step(old(db), player, p)
      ensures r.Ok? ==>
                r.value.0 == PurchaseCount(old(db), player, p.shop, p.product) + if r.value.1 then 0 else p.amount
      ensures r.Ok? ==> (r.value.1 <==> !Fresh(old(db), player, p))
      ensures r.Err? || r.value.1 ==> db == old(db)
    {
      hide PurchaseCount, Charge, Grant;
      if p.transaction == "" || p.shop == "" || p.product == "" || p.amount <= 0 {
        return Err(InvalidPurchase);
      }
      var tx := db;
      if (player, p.transaction) in tx.transactions {
        var existing := tx.transactions[(player, p.transaction)];
        if existing.product != p.product || existing.amount != p.amount {
          return Err(PayloadChanged);
        }
        var known := CountPurchases(tx, player, p.shop, p.product);
        return Ok((known, true));
      }
      var count := CountPurchases(tx, player, p.shop, p.product);
      if p.maxTotal > 0 && Wrap64(count + p.amount) > p.maxTotal {
        return Err(PurchaseLimit);
      }
      var paid := ChangeShopInventory(tx, player, Times(p.price, p.amount), true);
      if paid.Err? {
        return Err(paid.error);
      }
      tx := paid.value;
      ghost var start := tx;
      for i := 0 to |p.rewards|
        invariant GrantAll(start, player, p.rewards[..i], p.amount) == Ok(tx) && db == old(db)
      {
        assert p.rewards[..i + 1][..i] == p.rewards[..i];
        var granted := ChangeShopInventory(tx, player, Times(p.rewards[i], p.amount), false);
        if granted.Err? {
          FirstFailure(start, player, p.rewards, p.amount, i + 1);
          return Err(granted.error);
        }
        tx := granted.value;
      }
      assert p.rewards[..|p.rewards|] == p.rewards;
      if player !in tx.versions {
        OnlyStockChanges(db, player, p);
        return Err(ForeignKey);
      }
      OnlyStockChanges(db, player, p);
      tx := tx.(transactions := tx.transactions[(player, p.transaction) := Bought(p.shop, p.product, p.amount)]);
      tx := tx.(versions := tx.versions[player := tx.versions[player] + 1]);
      db := tx;
      return Ok((count + p.amount, false));
    }
  }

  lemma {:induction false} FirstFailure(db: Tables, player: string, rewards: seq<Change>, n: int, i: nat)
    requires i <= |rewards| && GrantAll(db, player, rewards[..i], n).Err?
    ensures GrantAll(db, player, rewards, n) == GrantAll(db, player, rewards[..i], n)
    decreases |rewards| - i
  {
    if i < |rewards| {
      assert rewards[..i + 1][..i] == rewards[..i];
      FirstFailure(db, player, rewards, n, i + 1);
    } else {
      assert rewards[..i] == rewards;
    }
  }

  lemma {:induction false} GrantsOnlyStock(db: Tables, player: string, rewards: seq<Change>, n: int)
    requires GrantAll(db, player, rewards, n).Ok?
    ensures var next := GrantAll(db, player, rewards, n).value;
      next.versions == db.versions && next.transactions == db.transactions && next.languages == db.languages
  {
    hide Quantity, RewardKey, Empty;
    if rewards != [] {
      GrantsOnlyStock(db, player, rewards[..|rewards| - 1], n);
    }
  }

  lemma OnlyStockChanges(db: Tables, player: string, p: Purchase)
    requires Charge(db, player, Times(p.price, p.amount)).Ok?
    requires GrantAll(Charge(db, player, Times(p.price, p.amount)).value, player, p.rewards, p.amount).Ok?
    ensures var next := GrantAll(Charge(db, player, Times(p.price, p.amount)).value, player, p.rewards, p.amount).value;
      next.versions == db.versions && next.transactions == db.transactions && next.languages == db.languages
  {
    GrantsOnlyStock(Charge(db, player, Times(p.price, p.amount)).value, player, p.rewards, p.amount);
  }

  // ---------------------------------------------------------------- true amounts

  function Positive(x: int): nat {
    if x > 0 then x else 0
  }

  /** What a change of `unit` bought `n` times should move. */
  function TrueAmount(unit: int, n: int): nat {
    Positive(unit * n)
  }

  /** How far the int64 product the transaction works with falls short of that. */
  function Shortfall(unit: int, n: int): int {
    TrueAmount(unit, n) - Positive(Wrap64(unit * n))
  }

  function TruePrice(price: Change, n: int, key: Stock): nat {
    if PriceKey(price) == Some(key) then TrueAmount(price.amount, n) else 0
  }

  function PriceShortfall(price: Change, n: int, key: Stock): int {
    if PriceKey(price) == Some(key) then Shortfall(price.amount, n) else 0
  }

  function TrueRewards(rewards: seq<Change>, n: int, key: Stock, language: int): nat {
    if rewards == [] then 0 else
      var reward := rewards[|rewards| - 1];
      TrueRewards(rewards[..|rewards| - 1], n, key, language)
      + if Rewarded(reward, key, language) then TrueAmount(reward.amount, n) else 0
  }

  function RewardsShortfall(rewards: seq<Change>, n: int, key: Stock, language: int): int {
    if rewards == [] then 0 else
      var reward := rewards[|rewards| - 1];
      RewardsShortfall(rewards[..|rewards| - 1], n, key, language)
      + if Rewarded(reward, key, language) then Shortfall(reward.amount, n) else 0
  }

  lemma PriceFallsShort(price: Change, n: int, key: Stock)
    ensures PriceOf(Times(price, n), key) == TruePrice(price, n, key) - PriceShortfall(price, n, key)
  {
  }

  lemma {:induction false} RewardsFallShort(rewards: seq<Change>, n: int, key: Stock, language: int)
    ensures RewardsOf(rewards, n, key, language)
        == TrueRewards(rewards, n, key, language) - RewardsShortfall(rewards, n, key, language)
  {
    if rewards != [] {
      RewardsFallShort(rewards[..|rewards| - 1], n, key, language);
    }
  }

  /** Buying the change `n` times leaves the int64 range. */
  predicate Overflows(change: Change, n: int) {
    change.amount * n >= TWO63
  }

  predicate SomeRewardOverflows(rewards: seq<Change>, n: int, key: Stock, language: int) {
    exists reward :: reward in rewards && Rewarded(reward, key, language) && Overflows(reward, n)
  }

  lemma {:induction false} ShortfallIsOverflow(rewards: seq<Change>, n: int, key: Stock, language: int)
    requires n > 0 && forall reward :: reward in rewards ==> reward.amount >= 0
    ensures RewardsShortfall(rewards, n, key, language) >= 0
    ensures RewardsShortfall(rewards, n, key, language) > 0 <==> SomeRewardOverflows(rewards, n, key, language)
  {
    if rewards != [] {
      var front, last := rewards[..|rewards| - 1], rewards[|rewards| - 1];
      assert rewards == front + [last];
      ShortfallIsOverflow(front, n, key, language);
      OverflowFallsShort(last.amount, n);
    }
  }

  lemma OverflowFallsShort(unit: int, n: int)
    requires unit >= 0 && n > 0
    ensures Shortfall(unit, n) >= 0 && (Shortfall(unit, n) > 0 <==> unit * n >= TWO63)
  {
    WrapOfNatural(unit * n);
  }

  lemma WrapOfNatural(x: int)
    ensures x >= 0 ==> Positive(Wrap64(x)) <= x
    ensures x >= TWO63 ==> Positive(Wrap64(x)) < x
    ensures 0 <= x < TWO63 ==> Wrap64(x) == x
  {
  }

  // ---------------------------------------------------------------- the ledger

  ghost predicate Solvent(db: Tables) {
    forall row :: row in db.stock ==> db.stock[row] >= 0
  }

  /** Poke gold can only be credited where its row exists; every other quantity is created on demand. */
  predicate Creditable(db: Tables, player: string, key: Stock) {
    key == PokeGold ==> (player, PokeGold) in db.stock
  }

  lemma ChargeTakesThePrice(db: Tables, player: string, price: Change, who: string, key: Stock)
    requires Charge(db, player, price).Ok? && Solvent(db)
    ensures var next := Charge(db, player, price).value;
      && Solvent(next) && next.stock.Keys == db.stock.Keys
      && Quantity(next, who, key) == Quantity(db, who, key) - if who == player then PriceOf(price, key) else 0
  {
  }

  ghost predicate Upserts(db: Tables, player: string, k: Stock, amount: int, who: string, key: Stock) {
    var next := Upsert(db, player, k, amount);
    && Solvent(next) && next.languages == db.languages && next.versions == db.versions
    && (Creditable(next, who, key) <==> Creditable(db, who, key))
    && Quantity(next, who, key) == Quantity(db, who, key) + if who == player && key == k then amount else 0
  }

  lemma UpsertAdds(db: Tables, player: string, k: Stock, amount: int, who: string, key: Stock)
    requires Solvent(db) && amount > 0 && (k == PokeGold ==> (player, PokeGold) in db.stock)
    ensures Upserts(db, player, k, amount, who, key)
  {
    hide Solvent, Quantity;
    UpsertStaysSolvent(db, player, k, amount);
    QuantityAfterUpsert(db, player, k, amount, who, key);
  }

  lemma UpsertStaysSolvent(db: Tables, player: string, k: Stock, amount: int)
    requires Solvent(db) && amount > 0
    ensures Solvent(Upsert(db, player, k, amount))
  {
    forall row | row in Upsert(db, player, k, amount).stock ensures Upsert(db, player, k, amount).stock[row] >= 0 {
      assert row != (player, k) ==> row in db.stock;
    }
  }

  lemma QuantityAfterUpsert(db: Tables, player: string, k: Stock, amount: int, who: string, key: Stock)
    ensures Quantity(Upsert(db, player, k, amount), who, key) ==
            Quantity(db, who, key) + if who == player && key == k then amount else 0
  {
    assert (who, key) == (player, k) <==> who == player && key == k;
  }

  lemma GrantGivesTheReward(db: Tables, player: string, reward: Change, who: string, key: Stock)
    requires Grant(db, player, reward).Ok? && Solvent(db)
    ensures var next := Grant(db, player, reward).value;
      && Solvent(next) && (Creditable(next, who, key) <==> Creditable(db, who, key))
      && Quantity(next, who, key) == Quantity(db, who, key)
         + if who == player && !Empty(reward) && Creditable(db, who, key)
              && Rewarded(reward, key, LanguageOf(db, player))
           then reward.amount else 0
  {
    hide Upsert;
    if Empty(reward) {
    } else if reward.kind == "card" {
      var counted := Upsert(db, player, Card(reward.id), reward.amount);
      UpsertAdds(db, player, Card(reward.id), reward.amount, who, key);
      UpsertAdds(counted, player, CardInLanguage(reward.id, db.languages[player]), reward.amount, who, key);
    } else if reward.kind == "poke_gold" {
      if (player, PokeGold) in db.stock {
        UpsertAdds(db, player, PokeGold, reward.amount, who, key);
      }
    } else if RewardKey(reward).Some? {
      UpsertAdds(db, player, RewardKey(reward).value, reward.amount, who, key);
    }
  }

  lemma {:induction false} GrantsAddUp(db: Tables, player: string, rewards: seq<Change>, n: int, who: string,
      key: Stock)
    requires GrantAll(db, player, rewards, n).Ok? && Solvent(db)
    ensures var next := GrantAll(db, player, rewards, n).value;
      && Solvent(next) && (Creditable(next, who, key) <==> Creditable(db, who, key))
      && Quantity(next, who, key) == Quantity(db, who, key)
         + if who == player && Creditable(db, who, key) then RewardsOf(rewards, n, key, LanguageOf(db, player)) else 0
  {
    hide Grant, Rewarded;
    if rewards != [] {
      var front := rewards[..|rewards| - 1];
      GrantsAddUp(db, player, front, n, who, key);
      GrantsOnlyStock(db, player, front, n);
      GrantGivesTheReward(GrantAll(db, player, front, n).value, player, Times(rewards[|rewards| - 1], n), who, key);
    }
  }

  /** What one purchase should do to one quantity of one player: rewards minus price, in true amounts. */
  ghost function Delta(db: Tables, player: string, p: Purchase, who: string, key: Stock): int {
    if who != player || !Fresh(db, player, p) then 0
    else (if Creditable(db, who, key) then TrueRewards(p.rewards, p.amount, key, LanguageOf(db, player)) else 0)
         - TruePrice(p.price, p.amount, key)
  }

  /** How far it is off that because products wrap: a price that falls short is kept, a reward is missed. */
  ghost function Slip(db: Tables, player: string, p: Purchase, who: string, key: Stock): int {
    if who != player || !Fresh(db, player, p) then 0
    else PriceShortfall(p.price, p.amount, key)
         - if Creditable(db, who, key) then RewardsShortfall(p.rewards, p.amount, key, LanguageOf(db, player)) else 0
  }

  lemma PurchaseIsItsDelta(db: Tables, player: string, p: Purchase, who: string, key: Stock)
    requires Solvent(db)
    ensures Solvent(Step(db, player, p))
    ensures Creditable(Step(db, player, p), who, key) <==> Creditable(db, who, key)
    ensures Quantity(Step(db, player, p), who, key) ==
            Quantity(db, who, key) + Delta(db, player, p, who, key) + Slip(db, player, p, who, key)
    ensures Step(db, player, p).languages == db.languages
    ensures Step(db, player, p).transactions ==
            if Fresh(db, player, p) then db.transactions[(player, p.transaction) := Bought(p.shop, p.product, p.amount)]
            else db.transactions
  {
    hide PurchaseCount, Charge, GrantAll, PriceOf, RewardsOf, TrueRewards, RewardsShortfall, TruePrice, PriceShortfall;
    if Fresh(db, player, p) {
      var paid := Charge(db, player, Times(p.price, p.amount)).value;
      ChargeTakesThePrice(db, player, Times(p.price, p.amount), who, key);
      ChargeKeepsTheRest(db, player, Times(p.price, p.amount));
      GrantsAddUp(paid, player, p.rewards, p.amount, who, key);
      GrantsOnlyStock(paid, player, p.rewards, p.amount);
      PriceFallsShort(p.price, p.amount, key);
      RewardsFallShort(p.rewards, p.amount, key, LanguageOf(db, player));
    }
  }

  /** A fresh purchase moves a quantity by exactly the true rewards minus the true price if and only if no product
      that concerns it overflows: of the price, or of a reward that can be credited. Only where one quantity is both
      paid and rewarded can two shortfalls cancel; then it is exact if and only if they are equal. */
  lemma PurchaseIsExactUnlessOverflow(db: Tables, player: string, p: Purchase, key: Stock)
    requires Solvent(db) && Fresh(db, player, p)
    ensures var exact := Quantity(Step(db, player, p), player, key) ==
                         Quantity(db, player, key) + Delta(db, player, p, player, key);
      var paid, language := PriceKey(p.price) == Some(key), LanguageOf(db, player);
      && (exact <==> Slip(db, player, p, player, key) == 0)
      && ((forall change :: change in p.rewards + [p.price] ==> change.amount >= 0)
          && !(paid && exists reward :: reward in p.rewards && Rewarded(reward, key, language))
          ==> (exact <==> !(paid && Overflows(p.price, p.amount))
                          && !(Creditable(db, player, key) && SomeRewardOverflows(p.rewards, p.amount, key, language))))
  {
    hide Attempt, Quantity, Rewarded, TrueRewards, TruePrice;
    PurchaseIsItsDelta(db, player, p, player, key);
    assert p.amount > 0 by {
      FreshAmount(db, player, p);
    }
    if forall change :: change in p.rewards + [p.price] ==> change.amount >= 0 {
      assert p.price in p.rewards + [p.price];
      assert forall reward :: reward in p.rewards ==> reward in p.rewards + [p.price];
      ShortfallIsOverflow(p.rewards, p.amount, key, LanguageOf(db, player));
      OverflowFallsShort(p.price.amount, p.amount);
    }
  }

  lemma FreshAmount(db: Tables, player: string, p: Purchase)
    requires Fresh(db, player, p)
    ensures p.amount > 0
  {
  }

  lemma ChargeKeepsTheRest(db: Tables, player: string, price: Change)
    requires Charge(db, player, price).Ok?
    ensures var next := Charge(db, player, price).value;
      next.languages == db.languages && next.versions == db.versions && next.transactions == db.transactions
  {
  }

  datatype Request = Request(player: string, purchase: Purchase)

  ghost function Run(db: Tables, requests: seq<Request>): Tables
    decreases |requests|
  {
    if requests == [] then db else Run(Step(db, requests[0].player, requests[0].purchase), requests[1..])
  }

  ghost function Net(db: Tables, requests: seq<Request>, who: string, key: Stock): int
    decreases |requests|
  {
    if requests == [] then 0 else
      Delta(db, requests[0].player, requests[0].purchase, who, key)
      + Net(Step(db, requests[0].player, requests[0].purchase), requests[1..], who, key)
  }

  ghost function Slips(db: Tables, requests: seq<Request>, who: string, key: Stock): int
    decreases |requests|
  {
    if requests == [] then 0 else
      Slip(db, requests[0].player, requests[0].purchase, who, key)
      + Slips(Step(db, requests[0].player, requests[0].purchase), requests[1..], who, key)
  }

  /** No product of the purchase leaves the int64 range. */
  predicate NoOverflow(p: Purchase) {
    forall change :: change in p.rewards + [p.price] ==> -TWO63 <= change.amount * p.amount < TWO63
  }

  /** So it is for the amounts of the API, which are int32, and unit amounts of up to 32 binary digits. */
  lemma ApiAmountsFit(p: Purchase)
    requires 0 < p.amount < 0x8000_0000
    requires forall change :: change in p.rewards + [p.price] ==> -0x1_0000_0000 <= change.amount <= 0x1_0000_0000
    ensures NoOverflow(p)
  {
    forall change | change in p.rewards + [p.price] ensures -TWO63 <= change.amount * p.amount < TWO63 {
      ProductFits(change.amount, p.amount);
    }
  }

  lemma ProductFits(unit: int, n: int)
    requires 0 < n < 0x8000_0000 && -0x1_0000_0000 <= unit <= 0x1_0000_0000
    ensures -TWO63 <= unit * n < TWO63
  {
    assert unit * n <= 0x1_0000_0000 * n && -0x1_0000_0000 * n <= unit * n;
  }

  lemma {:induction false} NoSlipWithoutOverflow(rewards: seq<Change>, n: int, key: Stock, language: int)
    requires forall change :: change in rewards ==> -TWO63 <= change.amount * n < TWO63
    ensures RewardsShortfall(rewards, n, key, language) == 0
  {
    if rewards != [] {
      assert rewards[|rewards| - 1] in rewards;
      NoSlipWithoutOverflow(rewards[..|rewards| - 1], n, key, language);
    }
  }

  /** Over any run a quantity is its start plus the true rewards minus the true prices of the fresh purchases, up to
      what wrapped products slip, which is nothing as long as none wraps; it is never negative. */
  lemma {:induction false} RunsBalance(db: Tables, requests: seq<Request>, who: string, key: Stock)
    requires Solvent(db)
    ensures Solvent(Run(db, requests))
    ensures Quantity(Run(db, requests), who, key) ==
            Quantity(db, who, key) + Net(db, requests, who, key) + Slips(db, requests, who, key)
    ensures (forall q :: q in requests ==> NoOverflow(q.purchase)) ==> Slips(db, requests, who, key) == 0
    decreases |requests|
  {
    hide Attempt, Delta, Quantity, NoOverflow;
    if requests != [] {
      var player, p := requests[0].player, requests[0].purchase;
      PurchaseIsItsDelta(db, player, p, who, key);
      RunsBalance(Step(db, player, p), requests[1..], who, key);
      if NoOverflow(p) {
        NoSlip(db, player, p, who, key);
      }
    }
  }

  lemma NoSlip(db: Tables, player: string, p: Purchase, who: string, key: Stock)
    requires NoOverflow(p)
    ensures Slip(db, player, p, who, key) == 0
  {
    hide Fresh;
    assert p.price in p.rewards + [p.price];
    assert forall reward :: reward in p.rewards ==> reward in p.rewards + [p.price];
    NoSlipWithoutOverflow(p.rewards, p.amount, key, LanguageOf(db, player));
  }

  const HUGE := Purchase("shop", "product", "t", 0x4000_0000_0000_0000, 0, Change("currency", "c", "", 4),
                         [Change("item", "i", "k", 4)])

  /** At the boundary of the store an amount of 2^62 makes every product by 4 vanish: the purchase is committed,
      costs nothing and grants nothing. */
  lemma WrappedPurchaseIsFree(db: Tables, player: string)
    requires Solvent(db) && player in db.versions && (player, "t") !in db.transactions
    ensures Fresh(db, player, HUGE) && Step(db, player, HUGE).stock == db.stock
    ensures TruePrice(HUGE.price, HUGE.amount, Currency("c")) == 2 * TWO63
    ensures TrueRewards(HUGE.rewards, HUGE.amount, Item("k", "i"), LanguageOf(db, player)) == 2 * TWO63
  {
    hide PurchaseCount;
    assert Times(HUGE.price, HUGE.amount).amount == 0;
    assert Times(HUGE.rewards[0], HUGE.amount).amount == 0;
    assert HUGE.rewards[..0] == [];
    assert GrantAll(db, player, HUGE.rewards[..0], HUGE.amount) == Ok(db);
  }

  lemma {:induction false} KnownIdsStayKnown(db: Tables, requests: seq<Request>, j: nat)
    requires Solvent(db) && j < |requests|
    requires (requests[j].player, requests[j].purchase.transaction) in db.transactions
    ensures !Fresh(Run(db, requests[..j]), requests[j].player, requests[j].purchase)
    decreases j
  {
    hide Attempt, Quantity;
    if j > 0 {
      PurchaseIsItsDelta(db, requests[0].player, requests[0].purchase, "", PokeGold);
      var next := Step(db, requests[0].player, requests[0].purchase);
      KnownIdsStayKnown(next, requests[1..], j - 1);
      assert requests[1..][..j - 1] == requests[..j][1..];
    }
  }

  /** A transaction id commits at most once in a run. */
  lemma {:induction false} CommitsAreDistinct(db: Tables, requests: seq<Request>, i: nat, j: nat)
    requires Solvent(db) && i < j < |requests|
    requires requests[i].player == requests[j].player
    requires requests[i].purchase.transaction == requests[j].purchase.transaction
    requires Fresh(Run(db, requests[..i]), requests[i].player, requests[i].purchase)
    ensures !Fresh(Run(db, requests[..j]), requests[j].player, requests[j].purchase)
    decreases i
  {
    hide Attempt, Quantity;
    var next := Step(db, requests[0].player, requests[0].purchase);
    PurchaseIsItsDelta(db, requests[0].player, requests[0].purchase, "", PokeGold);
    assert requests[1..][..j - 1] == requests[..j][1..];
    if i == 0 {
      KnownIdsStayKnown(next, requests[1..], j - 1);
    } else {
      assert requests[1..][..i - 1] == requests[..i][1..];
      CommitsAreDistinct(next, requests[1..], i - 1, j - 1);
    }
  }

  // ---------------------------------------------------------------- the lifetime cap

  lemma CountAfterPurchase(db: Tables, player: string, p: Purchase, who: string, shop: string, product: string)
    requires Solvent(db)
    ensures PurchaseCount(Step(db, player, p), who, shop, product) ==
            PurchaseCount(db, who, shop, product)
            + if Fresh(db, player, p) && who == player && shop == p.shop && product == p.product then p.amount else 0
  {
    hide Attempt, Quantity;
    PurchaseIsItsDelta(db, player, p, "", PokeGold);
    var before, after := ProductRows(db, who, shop, product), ProductRows(Step(db, player, p), who, shop, product);
    if Fresh(db, player, p) && who == player && shop == p.shop && product == p.product {
      SumAfterWrite(before, (player, p.transaction), p.amount);
      assert after == before[(player, p.transaction) := p.amount];
    } else {
      assert after == before;
    }
  }

  /** A fresh purchase stays within its cap if and only if its total fits an int64. */
  lemma CapHoldsUnlessOverflow(db: Tables, player: string, p: Purchase)
    requires Solvent(db) && Fresh(db, player, p) && 0 < p.maxTotal < TWO63
    requires PurchaseCount(db, player, p.shop, p.product) >= 0
    ensures PurchaseCount(Step(db, player, p), player, p.shop, p.product) <= p.maxTotal <==>
            PurchaseCount(db, player, p.shop, p.product) + p.amount < TWO63
  {
    CountAfterPurchase(db, player, p, player, p.shop, p.product);
  }

  /** With one fixed positive cap for a product, and amounts that leave room in an int64, no run exceeds it. */
  lemma {:induction false} RunsKeepTheCap(db: Tables, requests: seq<Request>, who: string, shop: string,
      product: string, cap: int)
    requires Solvent(db) && 0 < cap && 0 <= PurchaseCount(db, who, shop, product) <= cap
    requires forall q :: q in requests && q.player == who && q.purchase.shop == shop && q.purchase.product == product
                         ==> q.purchase.maxTotal == cap && q.purchase.amount < TWO63 - cap
    ensures PurchaseCount(db, who, shop, product) <= PurchaseCount(Run(db, requests), who, shop, product) <= cap
    decreases |requests|
  {
    hide PurchaseCount, Quantity, Charge, GrantAll;
    if requests != [] {
      var player, p := requests[0].player, requests[0].purchase;
      CountAfterPurchase(db, player, p, who, shop, product);
      PurchaseIsItsDelta(db, player, p, "", PokeGold);
      RunsKeepTheCap(Step(db, player, p), requests[1..], who, shop, product, cap);
    }
  }
}
