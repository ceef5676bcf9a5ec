/** What every run of snoops and challenges keeps. */
module FeedRuns {
  import opened Wrappers
  import opened Feed

  datatype Phase = Open | Snooped | Challenged

  function PhaseOf(db: Tables, player: string, feed: string): Phase {
    if (player, feed) in db.challenges then Challenged
    else if Reserved(db, player, feed) then Snooped
    else Open
  }

  /** The request took effect for the first time. */
  predicate Fresh(db: Tables, op: Op) {
    Attempt(db, op).result.Ok? && !Attempt(db, op).result.value.1
  }

  predicate Concerns(op: Op, player: string, feed: string) {
    op.player == player && op.feed == feed
  }

  /** The power the request finds, after regeneration. */
  function Found(db: Tables, op: Op): int {
    Regenerated(PowerOf(db, op.player, op.readAt), op.now).power
  }

  /** The power a fresh request writes back is lower by this much. */
  function Deducted(db: Tables, op: Op): int {
    if Fresh(db, op) && op.player in Step(db, op).powers then Found(db, op) - Step(db, op).powers[op.player].power
    else 0
  }

  /** A reservation and a challenge of the same feed exclude each other, and power stays within its limits. */
  ghost predicate Inv(db: Tables) {
    Exclusive(db) && WithinLimits(db)
  }

  ghost predicate Exclusive(db: Tables) {
    forall p :: p in db.snoops ==> (p, db.snoops[p].feed) !in db.challenges
  }

  ghost predicate WithinLimits(db: Tables) {
    forall p :: p in db.powers ==> 0 <= db.powers[p].power <= POWER_LIMIT
  }

  // ---------------------------------------------------------------- one request

  /** Whatever is not fresh, a replay or an error, changes nothing but the regenerated power. */
  lemma OthersOnlyRegenerate(db: Tables, op: Op)
    requires !Fresh(db, op)
    ensures Step(db, op) == db || Look(db, op.player, op.readAt) == Ok(Step(db, op))
  {
    hide Regenerated, TransactionUsed, Available;
  }

  /** A first snoop pays its cost and opens a reservation; a first challenge pays only without one, closes it
      and grants the card. */
  lemma FreshRequestsPay(db: Tables, op: Op)
    requires Fresh(db, op)
    ensures op.BeginSnoop?
        ==> PhaseOf(db, op.player, op.feed) == Open && PhaseOf(Step(db, op), op.player, op.feed) == Snooped
    ensures op.CommitChallenge?
        ==> PhaseOf(db, op.player, op.feed) != Challenged && PhaseOf(Step(db, op), op.player, op.feed) == Challenged
    ensures Deducted(db, op) == if PhaseOf(db, op.player, op.feed) == Snooped then 0 else op.cost
    ensures 0 <= Deducted(db, op) <= Found(db, op)
  {
    hide Regenerated, TransactionUsed;
  }

  /** The row a request works on: what the first look stores. */
  function Seen(db: Tables, op: Op): Power {
    PowerOf(db, op.player, op.readAt)
  }

  /** The power of the player at the next look. */
  function NextLook(db: Tables, op: Op): int {
    PowerOf(Step(db, op), op.player, op.now).power
  }

  /** A paid request is refunded by one unit for each whole period that its player had been at the limit: what it took
      is still gone at the next look if and only if the row was below the limit or less than a period old. */
  lemma ChargeSticksUnlessStale(db: Tables, op: Op)
    requires Fresh(db, op) && op.cost > 0 && (op.CommitChallenge? ==> !Reserved(db, op.player, op.feed))
    ensures var refund := Refund(Seen(db, op), op.now);
      NextLook(db, op) == Found(db, op) - op.cost + if refund < op.cost then refund else op.cost
    ensures NextLook(db, op) == Found(db, op) - op.cost <==>
            Seen(db, op).power < POWER_LIMIT || op.now - Seen(db, op).updatedAt < PERIOD
    ensures op.readAt == op.now && op.player in db.powers ==>
              (NextLook(db, op) == Found(db, op) - op.cost <==>
               db.powers[op.player].power < POWER_LIMIT || op.now - db.powers[op.player].updatedAt < PERIOD)
  {
    hide TransactionUsed, Available, Regenerated, Quantity;
    var seen := Look(db, op.player, op.readAt).value;
    assert seen.powers[op.player] == Seen(db, op);
    assert 0 <= op.cost <= Found(db, op);
    RefundedPower(Seen(db, op), op.cost, op.now);
    if op.player in db.powers {
      SameRefund(db.powers[op.player], op.now);
    }
  }

  /** Five periods at the limit: a snoop for five units leaves all five. */
  lemma StaleSnoopIsFree(db: Tables, player: string, feed: string, now: int)
    requires player != "" && feed != "" && player !in db.snoops && Available(db, player, feed, now)
    requires player in db.powers && db.powers[player] == Power(POWER_LIMIT, now - 5 * PERIOD)
    ensures var op := BeginSnoop(player, feed, POWER_LIMIT, now, now);
      Fresh(db, op) && Deducted(db, op) == POWER_LIMIT && NextLook(db, op) == POWER_LIMIT
  {
    var op := BeginSnoop(player, feed, POWER_LIMIT, now, now);
    ChargeSticksUnlessStale(db, op);
  }

  lemma RegeneratedWithinLimits(p: Power, now: int)
    requires p.power >= 0
    ensures 0 <= Regenerated(p, now).power <= POWER_LIMIT
  {
  }

  lemma StepKeepsExclusive(db: Tables, op: Op)
    requires Exclusive(db)
    ensures Exclusive(Step(db, op))
  {
    hide TransactionUsed, Regenerated;
  }

  lemma SeenPowers(db: Tables, op: Op)
    requires op.player in db.powers && op.cost >= 0
    ensures var next := (if op.BeginSnoop? then BeginSeen(db, op.player, op.feed, op.cost, op.now)
                         else CommitSeen(db, op.player, op.feed, op.transaction, op.card, op.cost, op.now)).db;
      next.powers == db.powers
      || (op.player in next.powers && next.powers == db.powers[op.player := next.powers[op.player]]
          && 0 <= next.powers[op.player].power <= PowerOf(db, op.player, op.now).power)
  {
    hide TransactionUsed, Available, Regenerated, Reserved, Quantity;
  }

  lemma StepKeepsLimits(db: Tables, op: Op)
    requires WithinLimits(db)
    ensures WithinLimits(Step(db, op))
  {
    hide BeginSeen, CommitSeen, Regenerated;
    if op.player in db.powers {
      RegeneratedWithinLimits(db.powers[op.player], op.readAt);
    }
    if Look(db, op.player, op.readAt).Ok? && op.cost >= 0 {
      var seen := Look(db, op.player, op.readAt).value;
      RegeneratedWithinLimits(seen.powers[op.player], op.now);
      SeenPowers(seen, op);
    }
  }

  lemma StepKeepsInv(db: Tables, op: Op)
    requires Inv(db)
    ensures Inv(Step(db, op))
  {
    hide Attempt;
    StepKeepsExclusive(db, op);
    StepKeepsLimits(db, op);
  }

  /** Other pairs keep their phase, and no pair ever goes back. */
  lemma PhasesAdvance(db: Tables, op: Op, player: string, feed: string)
    requires Inv(db)
    ensures !(Fresh(db, op) && Concerns(op, player, feed))
        ==> PhaseOf(Step(db, op), player, feed) == PhaseOf(db, player, feed)
    ensures PhaseOf(db, player, feed) == Challenged ==> PhaseOf(Step(db, op), player, feed) == Challenged
    ensures PhaseOf(db, player, feed) == Snooped ==> PhaseOf(Step(db, op), player, feed) != Open
  {
    hide Regenerated, TransactionUsed;
    if Fresh(db, op) {
      FreshRequestsPay(db, op);
    } else {
      OthersOnlyRegenerate(db, op);
    }
  }

  // ---------------------------------------------------------------- whole runs

  /** The requests of a run that took power for one feed from one player. */
  function Charges(db: Tables, ops: seq<Op>, player: string, feed: string): nat
    decreases |ops|
  {
    if ops == [] then 0 else
      (if Concerns(ops[0], player, feed) && Deducted(db, ops[0]) > 0 then 1 else 0)
      + Charges(Step(db, ops[0]), ops[1..], player, feed)
  }

  /** Over any run power is taken at most once for each player and feed, and not at all once a snoop or a
      challenge exists. */
  lemma {:induction false} ChargedAtMostOnce(db: Tables, ops: seq<Op>, player: string, feed: string)
    requires Inv(db)
    ensures Inv(Run(db, ops))
    ensures Charges(db, ops, player, feed) <= if PhaseOf(db, player, feed) == Open then 1 else 0
    ensures Charges(db, ops, player, feed) == 1 ==> PhaseOf(Run(db, ops), player, feed) != Open
    ensures PhaseOf(db, player, feed) != Open ==> PhaseOf(Run(db, ops), player, feed) != Open
    decreases |ops|
  {
    hide Attempt, PhaseOf;
    if ops != [] {
      var op, next := ops[0], Step(db, ops[0]);
      StepKeepsInv(db, op);
      PhasesAdvance(db, op, player, feed);
      if Fresh(db, op) {
        FreshRequestsPay(db, op);
      }
      ChargedAtMostOnce(next, ops[1..], player, feed);
    }
  }

  /** A reservation is always honoured: its challenge needs no power, whatever it costs. */
  lemma ReservationIsHonoured(db: Tables, op: Op)
    requires Inv(db) && op.CommitChallenge? && Reserved(db, op.player, op.feed)
    requires op.transaction != "" && op.card != "" && op.cost >= 0 && !TransactionUsed(db, op.player, op.transaction)
    requires op.feed in db.entries && op.player in db.players && op.player in db.languages
    ensures Fresh(db, op) && Deducted(db, op) == 0
  {
    assert Look(db, op.player, op.readAt).Ok?;
    var seen := Look(db, op.player, op.readAt).value;
    assert !TransactionUsed(seen, op.player, op.transaction);
    assert 0 <= PowerOf(seen, op.player, op.now).power;
  }

  // ---------------------------------------------------------------- grants

  ghost function Won(db: Tables, player: string): set<(string, string)> {
    set id | id in db.challenges && id.0 == player
  }

  ghost function WonCard(db: Tables, player: string, card: string): set<(string, string)> {
    set id | id in db.challenges && id.0 == player && db.challenges[id].card == card
  }

  function Experience(db: Tables, player: string): int {
    if player in db.players then db.players[player].experience else 0
  }

  /** Experience, cards and the stock in the player's language are in step with the challenge rows. */
  ghost predicate InStep(before: Tables, after: Tables, player: string, card: string) {
    && Experience(after, player) - EXPERIENCE * |Won(after, player)|
        == Experience(before, player) - EXPERIENCE * |Won(before, player)|
    && Quantity(after.cards, (player, card)) - |WonCard(after, player, card)|
        == Quantity(before.cards, (player, card)) - |WonCard(before, player, card)|
    && after.languages == before.languages
    && (player in before.languages ==>
          Quantity(after.cardLanguages, (player, card, before.languages[player])) - |WonCard(after, player, card)|
          == Quantity(before.cardLanguages, (player, card, before.languages[player])) - |WonCard(before, player, card)|)
  }

  lemma WonOneMore(before: Tables, after: Tables, id: (string, string), row: Challenge, player: string)
    requires id !in before.challenges && after.challenges == before.challenges[id := row]
    ensures |Won(after, player)| == |Won(before, player)| + if player == id.0 then 1 else 0
  {
    assert Won(after, player) == if player == id.0 then Won(before, player) + {id} else Won(before, player);
  }

  lemma WonOneMoreCard(before: Tables, after: Tables, id: (string, string), row: Challenge, player: string,
      card: string)
    requires id !in before.challenges && after.challenges == before.challenges[id := row]
    ensures |WonCard(after, player, card)| ==
            |WonCard(before, player, card)| + if player == id.0 && card == row.card then 1 else 0
  {
    if player == id.0 && card == row.card {
      assert WonCard(after, player, card) == WonCard(before, player, card) + {id};
    } else {
      assert WonCard(after, player, card) == WonCard(before, player, card);
    }
  }

  lemma StepStaysInStep(db: Tables, op: Op, player: string, card: string)
    ensures InStep(db, Step(db, op), player, card)
  {
    hide Regenerated, TransactionUsed, Available, Won, WonCard;
    var next := Step(db, op);
    if !Fresh(db, op) || op.BeginSnoop? {
      if !Fresh(db, op) {
        OthersOnlyRegenerate(db, op);
      }
      assert next.challenges == db.challenges && next.players == db.players && next.cards == db.cards
          && next.cardLanguages == db.cardLanguages;
      SameRows(db, next, player, card);
    } else {
      var id, row := (op.player, op.feed), Challenge(op.transaction, op.card, op.now);
      WonOneMore(db, next, id, row, player);
      WonOneMoreCard(db, next, id, row, player, card);
    }
  }

  lemma SameRows(before: Tables, after: Tables, player: string, card: string)
    requires after.challenges == before.challenges
    ensures Won(after, player) == Won(before, player) && WonCard(after, player, card) == WonCard(before, player, card)
  {
  }

  /** Over any run each challenge row has granted its card, its language stock and its experience exactly once. */
  lemma {:induction false} GrantedExactlyOnce(db: Tables, ops: seq<Op>, player: string, card: string)
    ensures InStep(db, Run(db, ops), player, card)
    decreases |ops|
  {
    hide Attempt, Won, WonCard, Experience, Quantity;
    if ops != [] {
      StepStaysInStep(db, ops[0], player, card);
      GrantedExactlyOnce(Step(db, ops[0]), ops[1..], player, card);
    }
  }
}
