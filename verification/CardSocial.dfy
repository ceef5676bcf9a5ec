/** Card gifts between friends, internal/store/card_social.go:69-217. */
module CardSocial {
  import opened Wrappers
  import opened GameTime
  import opened Sums

  const UNLOCK_AGE := 14 * DAY

  datatype Player = Player(createdAt: int, version: int)

  datatype Gift = Gift(
    sender: string, receiver: string, card: string, expansion: string, language: int, remaining: int, at: int)

  datatype Tables = Tables(
    players: map<string, Player>,
    friends: set<set<string>>,
    cards: map<(string, string), int>,  // player_cards.quantity by player and card
    gifts: seq<Gift>)

  datatype Request = Request(sender: string, receiver: string, card: string, expansion: string, language: int, now: int)

  datatype Error =
    | InvalidGift | NotFriends | NotUnlocked | NoSuchPlayer | FriendLimit | ReceiverLimit | NoCard | LastCopy

  // ---------------------------------------------------------------- queries

  function ReceivedSince(gifts: seq<Gift>, receiver: string, since: int): (n: nat)
    ensures n > 0 <==> exists g :: g in gifts && g.receiver == receiver && g.at >= since
  {
    if gifts == [] then 0 else
      (if gifts[0].receiver == receiver && gifts[0].at >= since then 1 else 0)
      + ReceivedSince(gifts[1..], receiver, since)
  }

  function SentSince(gifts: seq<Gift>, sender: string, receiver: string, since: int): (n: nat)
    ensures n > 0 <==> exists g :: g in gifts && g.sender == sender && g.receiver == receiver && g.at >= since
  {
    if gifts == [] then 0 else
      (if gifts[0].sender == sender && gifts[0].receiver == receiver && gifts[0].at >= since then 1 else 0)
      + SentSince(gifts[1..], sender, receiver, since)
  }

  predicate TooYoung(db: Tables, player: string, now: int) {
    player in db.players && now - db.players[player].createdAt < UNLOCK_AGE
  }

  function MatureFriends(db: Tables, a: string, b: string, now: int): Option<Error> {
    if {a, b} !in db.friends then Some(NotFriends)
    else if TooYoung(db, a, now) || TooYoung(db, b, now) then Some(NotUnlocked)
    else if a !in db.players || b !in db.players then Some(NoSuchPlayer)
    else None
  }

  function Quantity(db: Tables, player: string, card: string): int {
    if (player, card) in db.cards then db.cards[(player, card)] else 0
  }

  function Refusal(db: Tables, q: Request): Option<Error> {
    if q.sender == q.receiver || q.card == "" || q.expansion == "" then Some(InvalidGift)
    else if MatureFriends(db, q.sender, q.receiver, q.now).Some? then MatureFriends(db, q.sender, q.receiver, q.now)
    else if SentSince(db.gifts, q.sender, q.receiver, GameDayStart(q.now)) >= 1 then Some(FriendLimit)
    else if ReceivedSince(db.gifts, q.receiver, GameDayStart(q.now)) >= 1 then Some(ReceiverLimit)
    else if (q.sender, q.card) !in db.cards then Some(NoCard)
    else if db.cards[(q.sender, q.card)] < 2 then Some(LastCopy)
    else None
  }

  /** One copy moves, the gift is recorded and both profiles get a new version. */
  function Given(db: Tables, q: Request): Tables
    requires Refusal(db, q).None?
  {
    var kept := db.cards[(q.sender, q.card)] - 1;
    db.(cards := db.cards[(q.sender, q.card) := kept][(q.receiver, q.card) := Quantity(db, q.receiver, q.card) + 1],
        gifts := db.gifts + [Gift(q.sender, q.receiver, q.card, q.expansion, q.language, kept, q.now)],
        players := map p | p in db.players ::
          if p == q.sender || p == q.receiver then db.players[p].(version := db.players[p].version + 1)
          else db.players[p])
  }

  function Step(db: Tables, q: Request): Tables {
    if Refusal(db, q).None? then Given(db, q) else db
  }

  function Run(db: Tables, requests: seq<Request>): Tables
    decreases |requests|
  {
    if requests == [] then db else Run(Step(db, requests[0]), requests[1..])
  }

  class Store {
    var db: Tables

    constructor (db: Tables)
      ensures this.db == db
    {
      this.db := db;
    }

    method GiveCard(q: Request) returns (r: Result<Gift, Error>)
      modifies this
      ensures db == Step(old(db), q)
      ensures r.Err? <==> Refusal(old(db), q).Some?
      ensures r.Err? ==> Some(r.error) == Refusal(old(db), q)
      ensures r.Ok? ==> db.gifts == old(db).gifts + [r.value]
    {
      if q.sender == q.receiver || q.card == "" || q.expansion == "" {
        return Err(InvalidGift);
      }
      var tx := db;
      var friends := MatureFriends(tx, q.sender, q.receiver, q.now);
      if friends.Some? {
        return Err(friends.value);
      }
      var dayStart := GameDayStart(q.now);
      if SentSince(tx.gifts, q.sender, q.receiver, dayStart) >= 1 {
        return Err(FriendLimit);
      }
      if ReceivedSince(tx.gifts, q.receiver, dayStart) >= 1 {
        return Err(ReceiverLimit);
      }
      if (q.sender, q.card) !in tx.cards {
        return Err(NoCard);
      }
      var amount := tx.cards[(q.sender, q.card)];
      if amount < 2 {
        return Err(LastCopy);
      }
      var remaining := amount - 1;
      tx := tx.(cards := tx.cards[(q.sender, q.card) := remaining]);
      var owned := if (q.receiver, q.card) in tx.cards then tx.cards[(q.receiver, q.card)] + 1 else 1;
      tx := tx.(cards := tx.cards[(q.receiver, q.card) := owned]);
      var gift := Gift(q.sender, q.receiver, q.card, q.expansion, q.language, remaining, q.now);
      tx := tx.(gifts := tx.gifts + [gift]);
      tx := tx.(players := map p | p in tx.players ::
        if p in {q.sender, q.receiver} then tx.players[p].(version := tx.players[p].version + 1) else tx.players[p]);
      db := tx;
      return Ok(gift);
    }
  }

  // ---------------------------------------------------------------- when a gift succeeds

  /** The player exists and is at least fourteen days old. */
  predicate Mature(db: Tables, player: string, now: int) {
    player in db.players && now >= db.players[player].createdAt + 14 * 86400
  }

  /** A gift succeeds if and only if its fields are set, both are friends and mature, the receiver has had no gift since
      the game day began, and the sender holds at least two copies; two are enough. */
  lemma GivesExactly(db: Tables, q: Request)
    ensures Refusal(db, q).None? <==>
            && q.sender != q.receiver && q.card != "" && q.expansion != ""
            && {q.sender, q.receiver} in db.friends && Mature(db, q.sender, q.now) && Mature(db, q.receiver, q.now)
            && (forall g :: g in db.gifts && g.receiver == q.receiver ==> g.at < GameDayStart(q.now))
            && (q.sender, q.card) in db.cards && db.cards[(q.sender, q.card)] >= 2
  {
    hide GameDayStart;
    var since := GameDayStart(q.now);
    if SentSince(db.gifts, q.sender, q.receiver, since) > 0 {
      var g :| g in db.gifts && g.sender == q.sender && g.receiver == q.receiver && g.at >= since;
    }
  }

  /** Which limit a refused gift names: that of the pair if the pair had a gift today, else that of the receiver. */
  lemma LimitsExactly(db: Tables, q: Request)
    requires q.sender != q.receiver && q.card != "" && q.expansion != "" && {q.sender, q.receiver} in db.friends
    requires Mature(db, q.sender, q.now) && Mature(db, q.receiver, q.now)
    ensures Refusal(db, q) == Some(FriendLimit) <==>
            exists g :: g in db.gifts && g.sender == q.sender && g.receiver == q.receiver && g.at >= GameDayStart(q.now)
    ensures Refusal(db, q) == Some(ReceiverLimit) <==>
            && (exists g :: g in db.gifts && g.receiver == q.receiver && g.at >= GameDayStart(q.now))
            && Refusal(db, q) != Some(FriendLimit)
  {
    hide GameDayStart;
  }

  /** A gift moves one copy, is recorded with what the sender keeps, raises both versions by one, and changes nothing
      else. */
  lemma GiftWrites(db: Tables, q: Request)
    requires Refusal(db, q).None?
    ensures var next, kept := Step(db, q), db.cards[(q.sender, q.card)] - 1;
      && next.cards.Keys == db.cards.Keys + {(q.receiver, q.card)}
      && (forall row :: row in next.cards ==>
            next.cards[row] == if row == (q.sender, q.card) then kept
                               else if row == (q.receiver, q.card) then Quantity(db, q.receiver, q.card) + 1
                               else db.cards[row])
      && next.gifts == db.gifts + [Gift(q.sender, q.receiver, q.card, q.expansion, q.language, kept, q.now)]
      && next.players.Keys == db.players.Keys && next.friends == db.friends
      && (forall p :: p in db.players ==>
            next.players[p] == Player(db.players[p].createdAt,
                                      db.players[p].version + if p == q.sender || p == q.receiver then 1 else 0))
  {
    hide MatureFriends, SentSince, ReceivedSince;
  }

  // ---------------------------------------------------------------- conservation

  ghost function Holdings(db: Tables, card: string): map<string, int> {
    map row | row in db.cards && row.1 == card :: row.0 := db.cards[row]
  }

  ghost function Copies(db: Tables, card: string): int {
    Sum(Holdings(db, card))
  }

  lemma CopiesAfterWrite(db: Tables, next: Tables, player: string, card: string, quantity: int)
    requires next.cards == db.cards[(player, card) := quantity]
    ensures Copies(next, card) == Copies(db, card) + quantity - Quantity(db, player, card)
  {
    SumAfterWrite(Holdings(db, card), player, quantity);
    assert Holdings(next, card) == Holdings(db, card)[player := quantity];
  }

  lemma OtherCopiesAfterWrite(db: Tables, next: Tables, player: string, card: string, quantity: int, other: string)
    requires next.cards == db.cards[(player, card) := quantity] && other != card
    ensures Copies(next, other) == Copies(db, other)
  {
    assert Holdings(next, other) == Holdings(db, other);
  }

  lemma GiftsConserve(db: Tables, q: Request, card: string)
    ensures Copies(Step(db, q), card) == Copies(db, card)
  {
    hide Copies, Holdings, MatureFriends, SentSince, ReceivedSince;
    if Refusal(db, q).None? {
      var kept := db.cards[(q.sender, q.card)] - 1;
      var mid := db.(cards := db.cards[(q.sender, q.card) := kept]);
      var gained := Quantity(db, q.receiver, q.card) + 1;
      if card == q.card {
        CopiesAfterWrite(db, mid, q.sender, card, kept);
        CopiesAfterWrite(mid, Step(db, q), q.receiver, card, gained);
      } else {
        OtherCopiesAfterWrite(db, mid, q.sender, q.card, kept, card);
        OtherCopiesAfterWrite(mid, Step(db, q), q.receiver, q.card, gained, card);
      }
    }
  }

  lemma {:induction false} RunsConserve(db: Tables, requests: seq<Request>, card: string)
    ensures Copies(Run(db, requests), card) == Copies(db, card)
    decreases |requests|
  {
    if requests != [] {
      GiftsConserve(db, requests[0], card);
      RunsConserve(Step(db, requests[0]), requests[1..], card);
    }
  }

  // ---------------------------------------------------------------- daily limits

  /** No receiver has two gifts within one calendar day that begins at 06:00 UTC. */
  ghost predicate OneGiftADay(gifts: seq<Gift>) {
    forall i, j :: 0 <= i < j < |gifts| && gifts[i].receiver == gifts[j].receiver ==>
                     CalendarDay(gifts[i].at) != CalendarDay(gifts[j].at)
  }

  lemma StepKeepsOneADay(db: Tables, q: Request)
    requires OneGiftADay(db.gifts) && q.now >= RESET
    ensures OneGiftADay(Step(db, q).gifts)
  {
    hide MatureFriends;
    GameDayContains(q.now);
    if Refusal(db, q).None? {
      forall i | 0 <= i < |db.gifts| && db.gifts[i].receiver == q.receiver
        ensures CalendarDay(db.gifts[i].at) != CalendarDay(q.now)
      {
        assert db.gifts[i] in db.gifts;
      }
    }
  }

  /** The limit holds over every run, even with a clock that goes backwards. */
  lemma {:induction false} RunsKeepOneADay(db: Tables, requests: seq<Request>)
    requires OneGiftADay(db.gifts)
    requires forall q :: q in requests ==> q.now >= RESET
    ensures OneGiftADay(Run(db, requests).gifts)
    decreases |requests|
  {
    if requests != [] {
      StepKeepsOneADay(db, requests[0]);
      RunsKeepOneADay(Step(db, requests[0]), requests[1..]);
    }
  }

  lemma {:induction false} HeldCardsStay(db: Tables, requests: seq<Request>, player: string, card: string)
    requires Quantity(db, player, card) >= 1
    ensures Quantity(Run(db, requests), player, card) >= 1
    decreases |requests|
  {
    hide MatureFriends, SentSince, ReceivedSince;
    if requests != [] {
      HeldCardsStay(Step(db, requests[0]), requests[1..], player, card);
    }
  }

  /** Whoever gave a card during a run still holds a copy at the end. */
  lemma {:induction false} GiversKeepOne(db: Tables, requests: seq<Request>, k: nat)
    requires |db.gifts| <= k < |Run(db, requests).gifts|
    ensures var gift := Run(db, requests).gifts[k]; Quantity(Run(db, requests), gift.sender, gift.card) >= 1
    decreases |requests|
  {
    hide MatureFriends, SentSince, ReceivedSince;
    if requests != [] {
      var next := Step(db, requests[0]);
      if k < |next.gifts| {
        HistoryOnlyGrows(next, requests[1..]);
        var gift := next.gifts[k];
        HeldCardsStay(next, requests[1..], gift.sender, gift.card);
      } else {
        GiversKeepOne(next, requests[1..], k);
      }
    }
  }

  lemma {:induction false} HistoryOnlyGrows(db: Tables, requests: seq<Request>)
    ensures db.gifts <= Run(db, requests).gifts
    decreases |requests|
  {
    hide MatureFriends, SentSince, ReceivedSince;
    if requests != [] {
      HistoryOnlyGrows(Step(db, requests[0]), requests[1..]);
    }
  }

  /** After a gift, the daily limit recognises it at the same instant exactly from 1970-01-01T06:00Z on, or at
      an older reset: before that the computed day starts in the future. */
  lemma LimitSeesTheGift(db: Tables, q: Request)
    requires Refusal(db, q).None?
    ensures ReceivedSince(Given(db, q).gifts, q.receiver, GameDayStart(q.now)) >= 1 <==>
            q.now >= RESET || (q.now - RESET) % DAY == 0
  {
    GameDayContains(q.now);
    var gifts := Given(db, q).gifts;
    assert gifts[|db.gifts|] in gifts;
    assert GameDayStart(q.now) <= q.now ==> q.now < GameDayStart(q.now) + DAY by { DayIsShort(q.now); }
  }

  lemma DayIsShort(t: int)
    ensures t < GameDayStart(t) + DAY
  {
  }
}
