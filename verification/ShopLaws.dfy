/** When a purchase of internal/store/item_shop.go succeeds, in true amounts and in terms of the rows. */
module ShopLaws {
  import opened Wrappers
  import opened WeightedIndex
  import opened ItemShop

  ghost predicate Holds(db: Tables, player: string, key: Stock, amount: int) {
    (player, key) in db.stock && db.stock[(player, key)] >= amount
  }

  /** There is nothing to pay, or the row of the price holds the whole of it. */
  ghost predicate Payable(db: Tables, player: string, price: Change, n: int) {
    || price.kind == "" || price.amount * n <= 0
    || (price.kind == "currency" && Holds(db, player, Currency(price.id), price.amount * n))
    || (price.kind == "item" && Holds(db, player, Item(price.subId, price.id), price.amount * n))
    || (price.kind == "poke_gold" && Holds(db, player, PokeGold, price.amount * n))
  }

  /** There is nothing to give, or the kind is known; a card also needs the language of the player. */
  ghost predicate Grantable(db: Tables, player: string, reward: Change, n: int) {
    || reward.kind == "" || reward.amount * n <= 0
    || reward.kind in {"currency", "item", "poke_gold", "profile_decoration", "rental_deck", "theme_deck_recipe"}
    || (reward.kind == "card" && player in db.languages)
  }

  lemma ExactTimes(change: Change, n: int)
    requires -TWO63 <= change.amount * n < TWO63
    ensures Times(change, n) == Change(change.kind, change.id, change.subId, change.amount * n)
  {
  }

  lemma ChargeAnswers(db: Tables, player: string, price: Change, n: int)
    requires -TWO63 <= price.amount * n < TWO63
    ensures var r := Charge(db, player, Times(price, n));
      && (r.Ok? <==> Payable(db, player, price, n))
      && (r.Err? ==> r.error == if price.kind in {"currency", "item", "poke_gold"} then InsufficientInventory
                                else UnsupportedPrice)
  {
    ExactTimes(price, n);
  }

  lemma GrantAnswers(db: Tables, player: string, reward: Change, n: int)
    requires player in db.versions && -TWO63 <= reward.amount * n < TWO63
    ensures Grant(db, player, Times(reward, n)).Ok? <==> Grantable(db, player, reward, n)
  {
    ExactTimes(reward, n);
  }

  lemma {:induction false} GrantAllAnswers(db: Tables, player: string, rewards: seq<Change>, n: int)
    requires player in db.versions
    requires forall reward :: reward in rewards ==> -TWO63 <= reward.amount * n < TWO63
    ensures GrantAll(db, player, rewards, n).Ok? <==>
            forall reward :: reward in rewards ==> Grantable(db, player, reward, n)
  {
    hide Grant, Grantable;
    if rewards != [] {
      var front, last := rewards[..|rewards| - 1], rewards[|rewards| - 1];
      assert rewards == front + [last];
      GrantAllAnswers(db, player, front, n);
      var r := GrantAll(db, player, front, n);
      if r.Ok? {
        GrantsOnlyStock(db, player, front, n);
        GrantAnswers(r.value, player, last, n);
        SameGrantable(db, r.value, player, last, n);
      }
    }
  }

  lemma SameGrantable(db: Tables, next: Tables, player: string, reward: Change, n: int)
    requires next.languages == db.languages
    ensures Grantable(next, player, reward, n) <==> Grantable(db, player, reward, n)
  {
  }

  /** The answer to a purchase whose products and total fit an int64. A known transaction answers by its product and
      amount alone. A new one is over the limit if and only if a limit is set and the amounts bought so far together
      with this one exceed it; otherwise it succeeds if and only if the player exists, the price can be paid and every
      reward can be given. */
  lemma PurchaseAnswersExactly(db: Tables, player: string, p: Purchase)
    requires NoOverflow(p) && PurchaseCount(db, player, p.shop, p.product) + p.amount < TWO63
    requires PurchaseCount(db, player, p.shop, p.product) >= 0
    ensures var r, count := Attempt(db, player, p), PurchaseCount(db, player, p.shop, p.product);
      if p.transaction == "" || p.shop == "" || p.product == "" || p.amount <= 0 then r == Err(InvalidPurchase)
      else if (player, p.transaction) in db.transactions then
        var row := db.transactions[(player, p.transaction)];
        r == if row.product == p.product && row.amount == p.amount then Ok(db) else Err(PayloadChanged)
      else if p.maxTotal > 0 && count + p.amount > p.maxTotal then r == Err(PurchaseLimit)
      else
        && (r.Ok? <==> player in db.versions && Payable(db, player, p.price, p.amount)
                       && forall reward :: reward in p.rewards ==> Grantable(db, player, reward, p.amount))
        && (!Payable(db, player, p.price, p.amount) ==>
              r == Err(if p.price.kind in {"currency", "item", "poke_gold"} then InsufficientInventory
                       else UnsupportedPrice))
        && r != Err(PurchaseLimit)
  {
    hide PurchaseCount, Charge, GrantAll, Payable, Grantable, Quantity;
    assert p.price in p.rewards + [p.price];
    assert forall reward :: reward in p.rewards ==> reward in p.rewards + [p.price];
    ChargeAnswers(db, player, p.price, p.amount);
    var paid := Charge(db, player, Times(p.price, p.amount));
    if paid.Ok? {
      ChargeKeepsTheRest(db, player, Times(p.price, p.amount));
      NoLimitFromGrants(paid.value, player, p.rewards, p.amount);
      if player in db.versions {
        GrantAllAnswers(paid.value, player, p.rewards, p.amount);
        forall reward | reward in p.rewards
          ensures Grantable(paid.value, player, reward, p.amount) <==> Grantable(db, player, reward, p.amount)
        {
          SameGrantable(db, paid.value, player, reward, p.amount);
        }
      }
    }
  }

  lemma {:induction false} NoLimitFromGrants(db: Tables, player: string, rewards: seq<Change>, n: int)
    ensures GrantAll(db, player, rewards, n) != Err(PurchaseLimit)
  {
    hide Times, Upsert;
    if rewards != [] {
      NoLimitFromGrants(db, player, rewards[..|rewards| - 1], n);
    }
  }

  // ---------------------------------------------------------------- decks, recipes and the profile version

  function UnlockOf(reward: Change): Option<Unlock> {
    if reward.kind == "rental_deck" then Some(RentalDeck(reward.id))
    else if reward.kind == "theme_deck_recipe" then Some(ThemeRecipe(reward.id))
    else None
  }

  ghost predicate Unlocks(rewards: seq<Change>, n: int, unlock: Unlock) {
    exists reward :: reward in rewards && UnlockOf(reward) == Some(unlock) && reward.amount * n > 0
  }

  lemma GrantUnlocks(db: Tables, player: string, reward: Change, n: int, who: string, unlock: Unlock)
    requires -TWO63 <= reward.amount * n < TWO63 && Grant(db, player, Times(reward, n)).Ok?
    ensures (who, unlock) in Grant(db, player, Times(reward, n)).value.unlocks <==>
            (who, unlock) in db.unlocks
            || (who == player && UnlockOf(reward) == Some(unlock) && reward.amount * n > 0)
  {
    ExactTimes(reward, n);
  }

  lemma {:induction false} GrantsUnlock(db: Tables, player: string, rewards: seq<Change>, n: int, who: string,
      unlock: Unlock)
    requires forall reward :: reward in rewards ==> -TWO63 <= reward.amount * n < TWO63
    requires GrantAll(db, player, rewards, n).Ok?
    ensures (who, unlock) in GrantAll(db, player, rewards, n).value.unlocks <==>
            (who, unlock) in db.unlocks || (who == player && Unlocks(rewards, n, unlock))
  {
    hide Grant, Times, UnlockOf;
    if rewards != [] {
      var front, last := rewards[..|rewards| - 1], rewards[|rewards| - 1];
      assert rewards == front + [last];
      GrantsUnlock(db, player, front, n, who, unlock);
      GrantUnlocks(GrantAll(db, player, front, n).value, player, last, n, who, unlock);
    }
  }

  /** A fresh purchase unlocks exactly its decks and recipes, records itself and raises the profile version by one. */
  lemma FreshPurchaseUnlocks(db: Tables, player: string, p: Purchase, who: string, unlock: Unlock)
    requires NoOverflow(p) && Fresh(db, player, p)
    ensures var next := Step(db, player, p);
      && ((who, unlock) in next.unlocks <==>
            (who, unlock) in db.unlocks || (who == player && Unlocks(p.rewards, p.amount, unlock)))
      && player in db.versions && next.versions == db.versions[player := db.versions[player] + 1]
      && next.transactions == db.transactions[(player, p.transaction) := Bought(p.shop, p.product, p.amount)]
  {
    hide PurchaseCount, Charge, GrantAll, Unlocks;
    assert forall reward :: reward in p.rewards ==> reward in p.rewards + [p.price];
    var paid := Charge(db, player, Times(p.price, p.amount)).value;
    ChargeUnlocksNothing(db, player, Times(p.price, p.amount));
    GrantsUnlock(paid, player, p.rewards, p.amount, who, unlock);
  }

  lemma ChargeUnlocksNothing(db: Tables, player: string, price: Change)
    requires Charge(db, player, price).Ok?
    ensures Charge(db, player, price).value.unlocks == db.unlocks
  {
  }
}
