/** When a snoop or challenge of internal/store/feed.go succeeds and what it then writes, in terms of the rows. */
module FeedLaws {
  import opened Wrappers
  import opened Feed
  import opened FeedRuns

  ghost predicate Known(db: Tables, player: string) {
    player in db.powers || player in db.players
  }

  /** The feed is someone else's, less than four hours old and not yet challenged by the player. */
  ghost predicate OpenTo(db: Tables, player: string, feed: string, now: int) {
    && feed in db.entries && db.entries[feed].owner != player && now < db.entries[feed].createdAt + 14400
    && (player, feed) !in db.challenges
  }

  ghost predicate UsedBefore(db: Tables, player: string, feed: string, transaction: string) {
    (player, feed) in db.challenges
    || exists id :: id in db.challenges && id.0 == player && db.challenges[id].transaction == transaction
  }

  /** A snoop reserves if and only if its cost is one to five, the player is known and has no reservation yet, the feed
      is open to it, and the power covers the cost; exactly the cost is enough. It writes the lower power and the
      reservation, and nothing else. */
  lemma SnoopsExactly(db: Tables, op: Op)
    requires op.BeginSnoop?
    ensures Fresh(db, op) <==>
            && op.player != "" && op.feed != "" && 1 <= op.cost <= 5 && Known(db, op.player)
            && op.player !in db.snoops && OpenTo(db, op.player, op.feed, op.now) && Found(db, op) >= op.cost
    ensures Fresh(db, op) ==>
              var next := Step(db, op);
              && op.player in next.powers && next.powers[op.player].power == Found(db, op) - op.cost
              && (forall p :: p in db.powers && p != op.player ==> p in next.powers && next.powers[p] == db.powers[p])
              && next.powers.Keys == db.powers.Keys + {op.player}
              && next.snoops == db.snoops[op.player := Snoop(op.feed, op.cost, op.now)]
              && next.players == db.players && next.challenges == db.challenges && next.cards == db.cards
              && next.cardLanguages == db.cardLanguages
  {
    hide Regenerated;
  }

  /** Snooping at the reserved feed again answers with the power there is; any other feed has to wait. */
  lemma SecondSnoopExactly(db: Tables, op: Op)
    requires op.BeginSnoop? && op.player != "" && op.feed != "" && 1 <= op.cost <= 5 && Known(db, op.player)
    requires op.player in db.snoops
    ensures var r := Attempt(db, op).result;
      if db.snoops[op.player].feed == op.feed then r.Ok? && r.value.1 && r.value.0.power == Found(db, op)
      else r == Err(AnotherSnoop)
  {
    hide Regenerated;
  }

  ghost predicate HasReserved(db: Tables, op: Op) {
    op.player in db.snoops && db.snoops[op.player].feed == op.feed
  }

  /** A challenge is committed if and only if its fields are set, the player and the feed exist, neither the pair nor
      the transaction was used before, the player has a card language, and the power covers the cost unless the feed is
      reserved; exactly the cost is enough. */
  lemma ChallengesExactly(db: Tables, op: Op)
    requires op.CommitChallenge?
    ensures Fresh(db, op) <==>
            && op.transaction != "" && op.card != "" && op.cost >= 0
            && op.player in db.players && op.feed in db.entries && op.player in db.languages
            && !UsedBefore(db, op.player, op.feed, op.transaction)
            && Found(db, op) >= if HasReserved(db, op) then 0 else op.cost
  {
    hide Regenerated, Quantity, UsedBefore, TransactionUsed;
    if Look(db, op.player, op.readAt).Ok? {
      SameUse(db, Look(db, op.player, op.readAt).value, op);
    }
  }

  lemma SameUse(db: Tables, seen: Tables, op: Op)
    requires op.CommitChallenge? && seen.challenges == db.challenges
    ensures UsedBefore(db, op.player, op.feed, op.transaction) <==>
            (op.player, op.feed) in seen.challenges || TransactionUsed(seen, op.player, op.transaction)
  {
  }

  /** It writes the lower power, the challenge, one card, one card of the language and 15 experience, takes its own
      reservation away, and nothing else. */
  lemma ChallengeWrites(db: Tables, op: Op)
    requires op.CommitChallenge? && Fresh(db, op)
    ensures var next, reserved, owned := Step(db, op), HasReserved(db, op), (op.player, op.card);
      && op.player in db.languages && op.player in db.players && op.player in next.powers
      && var stock := (op.player, op.card, db.languages[op.player]);
      && next.powers[op.player].power == Found(db, op) - (if reserved then 0 else op.cost)
      && next.powers.Keys == db.powers.Keys + {op.player}
      && (forall p :: p in db.powers && p != op.player ==> p in next.powers && next.powers[p] == db.powers[p])
      && next.challenges == db.challenges[(op.player, op.feed) := Challenge(op.transaction, op.card, op.now)]
      && (forall p :: p in next.snoops <==> p in db.snoops && !(p == op.player && reserved))
      && (forall p :: p in next.snoops ==> next.snoops[p] == db.snoops[p])
      && next.cards == db.cards[owned := (if owned in db.cards then db.cards[owned] else 0) + 1]
      && next.cardLanguages ==
         db.cardLanguages[stock := (if stock in db.cardLanguages then db.cardLanguages[stock] else 0) + 1]
      && next.players == db.players[op.player := Profile(db.players[op.player].experience + 15,
                                                         db.players[op.player].version + 1)]
      && next.languages == db.languages && next.entries == db.entries
  {
    hide Regenerated, UsedBefore, TransactionUsed;
  }

  /** A known challenge or transaction of the player answers with the power there is. */
  lemma ReplaysExactly(db: Tables, op: Op)
    requires op.CommitChallenge? && op.transaction != "" && op.card != "" && op.cost >= 0 && Known(db, op.player)
    requires UsedBefore(db, op.player, op.feed, op.transaction)
    ensures var r := Attempt(db, op).result; r.Ok? && r.value.1 && r.value.0.power == Found(db, op)
  {
    hide Regenerated;
    SameUse(db, Look(db, op.player, op.readAt).value, op);
  }
}
