/** Feed snoops and challenges, internal/store/feed.go:78-245: power is reserved when a player looks at a feed
    and the reservation is consumed when the challenge is committed. */
module Feed {
  import opened Wrappers

  const POWER_LIMIT := 5
  const PERIOD := 43200         // twelve hours, in seconds
  const LIFETIME := 14400       // four hours
  const EXPERIENCE := 15

  datatype Power = Power(power: int, updatedAt: int)

  datatype Entry = Entry(owner: string, createdAt: int)

  datatype Snoop = Snoop(feed: string, cost: int, createdAt: int)

  datatype Challenge = Challenge(transaction: string, card: string, createdAt: int)

  datatype Profile = Profile(experience: int, version: int)

  datatype Tables = Tables(
    players: map<string, Profile>,
    languages: map<string, int>,                          // of players with a supported locale
    powers: map<string, Power>,
    entries: map<string, Entry>,
    snoops: map<string, Snoop>,                           // at most one for each player
    challenges: map<(string, string), Challenge>,         // by player and feed
    cards: map<(string, string), int>,
    cardLanguages: map<(string, string, int), int>)

  datatype Error =
    | InvalidSnoop | InvalidChallenge | AnotherSnoop | Unavailable | NotEnoughPower | NoLanguage | ForeignKey

  /** The time is read more than once in a request: `readAt` for the first look, `now` for the transaction. */
  datatype Op =
    | BeginSnoop(player: string, feed: string, cost: int, readAt: int, now: int)
    | CommitChallenge(player: string, feed: string, transaction: string, card: string, cost: int, readAt: int, now: int)

  datatype Outcome = Outcome(db: Tables, result: Result<(Power, bool), Error>)

  // ---------------------------------------------------------------- power

  /** regeneratedPower (internal/store/packs.go:590-600). At the limit the timestamp stays as it was. */
  function Regenerated(p: Power, now: int): Power {
    if p.power >= POWER_LIMIT || now < p.updatedAt then
      p.(power := if p.power < POWER_LIMIT then p.power else POWER_LIMIT)
    else
      var steps := (now - p.updatedAt) / PERIOD;
      if steps <= 0 then p
      else Power(if p.power + steps < POWER_LIMIT then p.power + steps else POWER_LIMIT, p.updatedAt + steps * PERIOD)
  }

  /** Looking at the power in between never changes what it will be. */
  lemma PollingIsHarmless(p: Power, t: int, u: int)
    requires t <= u
    ensures Regenerated(Regenerated(p, t), u).power == Regenerated(p, u).power
  {
  }

  /** Power grows by one unit for each whole period since its timestamp, up to the limit; before that, nothing changes.
      The new timestamp is the last whole period that has passed. */
  lemma OneUnitEachPeriod(p: Power, t: int)
    requires p.power <= 5
    ensures t < p.updatedAt + 43200 ==> Regenerated(p, t) == p
    ensures t >= p.updatedAt ==>
              var q := Regenerated(p, t).power;
              Regenerated(p, t + 43200).power == if q < 5 then q + 1 else 5
    ensures t >= p.updatedAt && p.power < 5 ==>
              var at := Regenerated(p, t).updatedAt;
              at <= t < at + 43200 && (at - p.updatedAt) % 43200 == 0
  {
    if t >= p.updatedAt {
      assert (t + PERIOD - p.updatedAt) / PERIOD == (t - p.updatedAt) / PERIOD + 1;
    }
  }

  /** What a charge at `now` gives back at the next look: whole periods that ran out at the limit, whose timestamp
      stays old. */
  function Refund(p: Power, now: int): nat {
    if p.power < POWER_LIMIT || now < p.updatedAt then 0 else (now - p.updatedAt) / PERIOD
  }

  lemma RefundedPower(p: Power, cost: int, now: int)
    requires 0 <= cost <= Regenerated(p, now).power
    ensures var left := Regenerated(p, now).(power := Regenerated(p, now).power - cost);
      Regenerated(left, now).power == left.power + if Refund(p, now) < cost then Refund(p, now) else cost
  {
  }

  /** A row is refunded after a look exactly when it would be without the look at the same instant. */
  lemma SameRefund(p: Power, now: int)
    ensures Refund(Regenerated(p, now), now) == Refund(p, now)
  {
  }

  function PowerOf(db: Tables, player: string, now: int): Power {
    if player in db.powers then Regenerated(db.powers[player], now) else Power(POWER_LIMIT, now)
  }

  /** ChallengeState: creates the row of a known player, or stores the regenerated one. */
  function Look(db: Tables, player: string, now: int): Result<Tables, Error> {
    if player !in db.powers && player !in db.players then Err(ForeignKey)
    else Ok(db.(powers := db.powers[player := PowerOf(db, player, now)]))
  }

  function Available(db: Tables, player: string, feed: string, now: int): bool {
    && feed in db.entries && db.entries[feed].owner != player && db.entries[feed].createdAt > now - LIFETIME
    && (player, feed) !in db.challenges
  }

  predicate Reserved(db: Tables, player: string, feed: string) {
    player in db.snoops && db.snoops[player].feed == feed
  }

  predicate TransactionUsed(db: Tables, player: string, transaction: string) {
    exists id :: id in db.challenges && id.0 == player && db.challenges[id].transaction == transaction
  }

  // ---------------------------------------------------------------- the requests as functions

  function Begin(db: Tables, player: string, feed: string, cost: int, readAt: int, now: int): Outcome {
    if player == "" || feed == "" || cost <= 0 || cost > POWER_LIMIT then Outcome(db, Err(InvalidSnoop))
    else if Look(db, player, readAt).Err? then Outcome(db, Err(Look(db, player, readAt).error))
    else BeginSeen(Look(db, player, readAt).value, player, feed, cost, now)
  }

  function BeginSeen(db: Tables, player: string, feed: string, cost: int, now: int): Outcome {
    var state := PowerOf(db, player, now);
    if player in db.snoops then
      Outcome(db, if Reserved(db, player, feed) then Ok((state, true)) else Err(AnotherSnoop))
    else if !Available(db, player, feed, now) then Outcome(db, Err(Unavailable))
    else if state.power < cost then Outcome(db, Err(NotEnoughPower))
    else
      var left := state.(power := state.power - cost);
      Outcome(db.(powers := db.powers[player := left], snoops := db.snoops[player := Snoop(feed, cost, now)]),
              Ok((left, false)))
  }

  function Quantity<K(==)>(column: map<K, int>, key: K): int {
    if key in column then column[key] else 0
  }

  function CommitOf(db: Tables, player: string, feed: string, transaction: string, card: string, cost: int,
      readAt: int, now: int): Outcome
  {
    if transaction == "" || card == "" || cost < 0 then Outcome(db, Err(InvalidChallenge))
    else if Look(db, player, readAt).Err? then Outcome(db, Err(Look(db, player, readAt).error))
    else CommitSeen(Look(db, player, readAt).value, player, feed, transaction, card, cost, now)
  }

  function CommitSeen(db: Tables, player: string, feed: string, transaction: string, card: string, cost: int, now: int)
    : Outcome
  {
    var state := PowerOf(db, player, now);
    var charged := if Reserved(db, player, feed) then 0 else cost;
    if (player, feed) in db.challenges || TransactionUsed(db, player, transaction) then Outcome(db, Ok((state, true)))
    else if state.power < charged then Outcome(db, Err(NotEnoughPower))
    else if feed !in db.entries || player !in db.players then Outcome(db, Err(ForeignKey))
    else if player !in db.languages then Outcome(db, Err(NoLanguage))
    else
      var left := state.(power := state.power - charged);
      var stock := (player, card, db.languages[player]);
      Outcome(db.(
                powers := db.powers[player := left],
                challenges := db.challenges[(player, feed) := Challenge(transaction, card, now)],
                snoops := if Reserved(db, player, feed) then db.snoops - {player} else db.snoops,
                cards := db.cards[(player, card) := Quantity(db.cards, (player, card)) + 1],
                cardLanguages := db.cardLanguages[stock := Quantity(db.cardLanguages, stock) + 1],
                players := db.players[player :=
                    Profile(db.players[player].experience + EXPERIENCE, db.players[player].version + 1)]),
              Ok((left, false)))
  }

  function Attempt(db: Tables, op: Op): Outcome {
    match op
    case BeginSnoop(player, feed, cost, readAt, now) => Begin(db, player, feed, cost, readAt, now)
    case CommitChallenge(player, feed, transaction, card, cost, readAt, now) =>
      CommitOf(db, player, feed, transaction, card, cost, readAt, now)
  }

  function Step(db: Tables, op: Op): Tables {
    Attempt(db, op).db
  }

  function Run(db: Tables, ops: seq<Op>): Tables
    decreases |ops|
  {
    if ops == [] then db else Run(Step(db, ops[0]), ops[1..])
  }

  class Store {
    var db: Tables

    constructor (db: Tables)
      ensures this.db == db
    {
      this.db := db;
    }

    method ChallengeState(player: string, now: int) returns (r: Result<Power, Error>)
      modifies this
      ensures r.Ok? <==> Look(old(db), player, now).Ok?
      ensures r.Ok? ==> db == Look(old(db), player, now).value && r.value == PowerOf(old(db), player, now)
      ensures r.Err? ==> db == old(db) && r.error == ForeignKey
    {
      if player !in db.powers {
        var state := Power(POWER_LIMIT, now);
        if player !in db.players {
          return Err(ForeignKey);
        }
        db := db.(powers := db.powers[player := state]);
        return Ok(state);
      }
      var state := Regenerated(db.powers[player], now);
      db := db.(powers := db.powers[player := state]);
      return Ok(state);
    }

    method BeginFeedSnoop(player: string, feed: string, cost: int, readAt: int, now: int)
      returns (r: Result<(Power, bool), Error>)
      modifies this
      ensures Outcome(db, r) == Begin(old(db), player, feed, cost, readAt, now)
    {
      hide Regenerated;
      if player == "" || feed == "" || cost <= 0 || cost > POWER_LIMIT {
        return Err(InvalidSnoop);
      }
      var looked := ChallengeState(player, readAt);
      if looked.Err? {
        return Err(looked.error);
      }
      var tx := db;
      if player in tx.snoops {
        var replayed := Regenerated(tx.powers[player], now);
        if tx.snoops[player].feed != feed {
          return Err(AnotherSnoop);
        }
        return Ok((replayed, true));
      }
      if !Available(tx, player, feed, now) {
        return Err(Unavailable);
      }
      var state := Regenerated(tx.powers[player], now);
      if state.power < cost {
        return Err(NotEnoughPower);
      }
      state := state.(power := state.power - cost);
      tx := tx.(powers := tx.powers[player := state]);
      tx := tx.(snoops := tx.snoops[player := Snoop(feed, cost, now)]);
      db := tx;
      return Ok((state, false));
    }

    method CommitFeedChallenge(player: string, feed: string, transaction: string, card: string, cost: int,
        readAt: int, now: int)
      returns (r: Result<(Power, bool), Error>)
      modifies this
      ensures Outcome(db, r) == CommitOf(old(db), player, feed, transaction, card, cost, readAt, now)
    {
      hide Regenerated, TransactionUsed, Quantity;
      if transaction == "" || card == "" || cost < 0 {
        return Err(InvalidChallenge);
      }
      var looked := ChallengeState(player, readAt);
      if looked.Err? {
        return Err(looked.error);
      }
      var tx := db;
      var state := Regenerated(tx.powers[player], now);
      if (player, feed) in tx.challenges || TransactionUsed(tx, player, transaction) {
        return Ok((state, true));
      }
      var chargedCost := cost;
      if Reserved(tx, player, feed) {
        chargedCost := 0;
      }
      if state.power < chargedCost {
        return Err(NotEnoughPower);
      }
      state := state.(power := state.power - chargedCost);
      tx := tx.(powers := tx.powers[player := state]);
      if feed !in tx.entries || player !in tx.players {
        return Err(ForeignKey);
      }
      tx := tx.(challenges := tx.challenges[(player, feed) := Challenge(transaction, card, now)]);
      if Reserved(tx, player, feed) {
        tx := tx.(snoops := tx.snoops - {player});
      }
      tx := tx.(cards := tx.cards[(player, card) := Quantity(tx.cards, (player, card)) + 1]);
      if player !in tx.languages {
        return Err(NoLanguage);
      }
      var stock := (player, card, tx.languages[player]);
      tx := tx.(cardLanguages := tx.cardLanguages[stock := Quantity(tx.cardLanguages, stock) + 1]);
      var profile := tx.players[player];
      tx := tx.(players := tx.players[player := Profile(profile.experience + EXPERIENCE, profile.version + 1)]);
      db := tx;
      return Ok((state, false));
    }
  }
}
