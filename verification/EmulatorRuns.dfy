/** What every run of the reservation protocol keeps. */
module EmulatorRuns {
  import opened Wrappers
  import opened Emulators

  datatype Op =
    | Select(serial: string, player: string, active: bool, now: int)
    | Release(serial: string, now: int)
    | Authorize(serial: string, device: string, token: string, now: int, lifetime: int)
    | Delete(player: string, replacements: map<string, string>, now: int)

  function Attempt(db: Tables, op: Op): Result<Tables, Error> {
    match op
    case Select(serial, player, active, now) => TrySelect(db, serial, player, active, now)
    case Release(serial, now) => Ok(Released(db, serial, now))
    case Authorize(serial, device, token, now, lifetime) => TryAuthorize(db, serial, device, token, now, lifetime)
    case Delete(player, replacements, now) => TryDelete(db, player, replacements, now)
  }

  function Step(db: Tables, op: Op): Tables {
    Commit(db, Attempt(db, op))
  }

  function Run(db: Tables, ops: seq<Op>): Tables
    decreases |ops|
  {
    if ops == [] then db else Run(Step(db, ops[0]), ops[1..])
  }

  // ---------------------------------------------------------------- account names

  /** `whole` ends in `part`, right after a colon. */
  predicate ColonSuffix(whole: string, part: string) {
    && |part| < |whole|
    && whole[|whole| - |part|..] == part
    && whole[|whole| - |part| - 1] == ':'
  }

  /** Two different pairs share an account name exactly when one serial continues the other with a
      colon and the shorter serial's device account carries that continuation. */
  lemma AccountCollision(s1: string, d1: string, s2: string, d2: string)
    ensures AccountName(s1, d1) == AccountName(s2, d2) <==>
            || (s1 == s2 && d1 == d2)
            || (ColonSuffix(d1, d2) && s2 == s1 + ":" + d1[..|d1| - |d2| - 1])
            || (ColonSuffix(d2, d1) && s1 == s2 + ":" + d2[..|d2| - |d1| - 1])
  {
    assert AccountName(s1, d1)[9..] == s1 + ":" + d1;
    assert AccountName(s2, d2)[9..] == s2 + ":" + d2;
    if AccountName(s1, d1) == AccountName(s2, d2) {
      SplitAtColon(s1, d1, s2, d2);
      SplitAtColon(s2, d2, s1, d1);
    } else {
      JoinAtColon(s1, d1, s2, d2);
      JoinAtColon(s2, d2, s1, d1);
    }
  }

  lemma JoinAtColon(s1: string, d1: string, s2: string, d2: string)
    ensures ColonSuffix(d1, d2) && s2 == s1 + ":" + d1[..|d1| - |d2| - 1] ==> s1 + ":" + d1 == s2 + ":" + d2
  {
    if ColonSuffix(d1, d2) {
      var k := |d1| - |d2| - 1;
      assert d1 == d1[..k] + ":" + d2;
      assert s1 + ":" + d1 == (s1 + ":" + d1[..k]) + ":" + d2;
    }
  }

  lemma SplitAtColon(s1: string, d1: string, s2: string, d2: string)
    requires s1 + ":" + d1 == s2 + ":" + d2
    ensures |s1| == |s2| ==> s1 == s2 && d1 == d2
    ensures |s1| < |s2| ==> ColonSuffix(d1, d2) && s2 == s1 + ":" + d1[..|d1| - |d2| - 1]
  {
    var w := s1 + ":" + d1;
    assert s1 == w[..|s1|] && d1 == w[|s1| + 1..] && w[|s1|] == ':';
    assert s2 == w[..|s2|] && d2 == w[|s2| + 1..] && w[|s2|] == ':';
    if |s1| < |s2| {
      var k := |d1| - |d2| - 1;
      assert d1[k] == w[|s2|];
      assert d1[k + 1..] == d2;
      assert s2 == s1 + ":" + d1[..k];
    }
  }

  /** The device accounts never collide under any serials. */
  ghost predicate CollisionFree(devices: iset<string>) {
    forall d1, d2 :: d1 in devices && d2 in devices && d2 != "" ==> !ColonSuffix(d1, d2)
  }

  lemma EqualLengthsNeverCollide(devices: iset<string>, n: nat)
    requires forall d :: d in devices ==> |d| == n
    ensures CollisionFree(devices)
  {
  }

  ghost predicate Owns(serial: string, account: string, devices: iset<string>) {
    exists d :: d in devices && d != "" && account == AccountName(serial, d)
  }

  lemma OneOwner(s1: string, s2: string, account: string, devices: iset<string>)
    requires CollisionFree(devices)
    requires Owns(s1, account, devices) && Owns(s2, account, devices)
    ensures s1 == s2
  {
    var d1 :| d1 in devices && d1 != "" && account == AccountName(s1, d1);
    var d2 :| d2 in devices && d2 != "" && account == AccountName(s2, d2);
    AccountCollision(s1, d1, s2, d2);
  }

  // ---------------------------------------------------------------- the session invariant

  predicate Live(db: Tables, token: string) {
    token in db.sessions && db.sessions[token].revokedAt.None?
  }

  /** A live session of emulator `serial` is for its current device account and reserved player. */
  ghost predicate Backed(db: Tables, serial: string, session: Session) {
    && Holds(db, serial, session.player)
    && db.profiles[serial].deviceAccount == session.account
    && session.account in db.activeProfiles
    && db.activeProfiles[session.account] == session.player
  }

  ghost predicate LiveBacked(db: Tables, devices: iset<string>) {
    forall s, t :: Live(db, t) && Owns(s, db.sessions[t].account, devices) ==> Backed(db, s, db.sessions[t])
  }

  ghost predicate OneLiveSession(db: Tables, devices: iset<string>) {
    forall s, t, t' ::
      Live(db, t) && Live(db, t') && Owns(s, db.sessions[t].account, devices)
      && Owns(s, db.sessions[t'].account, devices)
      ==> t == t'
  }

  ghost predicate Tidy(db: Tables, devices: iset<string>) {
    && (forall s :: s in db.profiles && db.profiles[s].active ==> db.profiles[s].player.Some?)
    && (forall s :: s in db.profiles && db.profiles[s].deviceAccount != "" ==>
          Owns(s, db.profiles[s].deviceAccount, devices))
    && (forall t :: t in db.sessions ==> db.sessions[t].account != "")
  }

  ghost predicate Inv(db: Tables, devices: iset<string>) {
    Schema(db) && Tidy(db, devices) && LiveBacked(db, devices) && OneLiveSession(db, devices)
  }

  ghost predicate Allowed(op: Op, devices: iset<string>) {
    op.Authorize? ==> op.device in devices
  }

  lemma SelectKeepsInv(db: Tables, op: Op, devices: iset<string>)
    requires op.Select? && CollisionFree(devices) && Inv(db, devices)
    ensures Inv(Step(db, op), devices)
  {
    hide Released, TryAuthorize, TryDelete, Owns;
    SelectKeepsSchema(db, op.serial, op.player, op.active, op.now);
    var next := Step(db, op);
    forall s, t | Live(next, t) && Owns(s, next.sessions[t].account, devices)
      ensures Live(db, t) && next.sessions[t] == db.sessions[t] && Backed(next, s, next.sessions[t])
    {
      assert Live(db, t) && Backed(db, s, db.sessions[t]);
    }
  }

  lemma ReleaseKeepsInv(db: Tables, op: Op, devices: iset<string>)
    requires op.Release? && CollisionFree(devices) && Inv(db, devices)
    ensures Inv(Step(db, op), devices)
  {
    hide TrySelect, TryAuthorize, TryDelete, Owns;
    ReleaseKeepsSchema(db, op.serial, op.now);
    var next := Step(db, op);
    forall s, t | Live(next, t) && Owns(s, next.sessions[t].account, devices)
      ensures Live(db, t) && next.sessions[t] == db.sessions[t] && Backed(next, s, next.sessions[t])
    {
      assert Live(db, t) && Backed(db, s, db.sessions[t]);
    }
  }

  lemma OwnsIt(serial: string, device: string, devices: iset<string>)
    requires device in devices && device != ""
    ensures Owns(serial, AccountName(serial, device), devices)
    ensures AccountName(serial, device) != ""
  {
  }

  lemma AuthorizeKeepsInv(db: Tables, op: Op, devices: iset<string>)
    requires op.Authorize? && CollisionFree(devices) && Inv(db, devices) && Allowed(op, devices)
    ensures Inv(Step(db, op), devices)
  {
    hide Released, TrySelect, TryDelete, Owns;
    AuthorizeKeepsSchema(db, op.serial, op.device, op.token, op.now, op.lifetime);
    var next := Step(db, op);
    if Attempt(db, op).Ok? {
      var account := AccountName(op.serial, op.device);
      OwnsIt(op.serial, op.device, devices);
      forall s, t | Live(next, t) && Owns(s, next.sessions[t].account, devices)
        ensures t == op.token || (Live(db, t) && next.sessions[t] == db.sessions[t] && s != op.serial)
        ensures Backed(next, s, next.sessions[t])
      {
        if t == op.token {
          OneOwner(s, op.serial, account, devices);
        } else {
          assert Live(db, t) && Backed(db, s, db.sessions[t]);
        }
      }
      forall s, t, t' | Live(next, t) && Live(next, t') && Owns(s, next.sessions[t].account, devices)
                        && Owns(s, next.sessions[t'].account, devices)
        ensures t == t'
      {
        if t == op.token || t' == op.token {
          OneOwner(s, op.serial, account, devices);
        }
      }
    }
  }

  lemma DeleteKeepsInv(db: Tables, op: Op, devices: iset<string>)
    requires op.Delete? && Inv(db, devices)
    ensures Inv(Step(db, op), devices)
  {
    hide Released, TryAuthorize, TrySelect, Owns;
    DeleteKeepsSchema(db, op.player, op.replacements, op.now);
    var next := Step(db, op);
    forall s, t | Live(next, t) && Owns(s, next.sessions[t].account, devices)
      ensures Live(db, t) && next.sessions[t] == db.sessions[t] && Backed(next, s, next.sessions[t])
    {
      assert Live(db, t) && Backed(db, s, db.sessions[t]);
    }
  }

  lemma StepKeepsInv(db: Tables, op: Op, devices: iset<string>)
    requires CollisionFree(devices) && Inv(db, devices) && Allowed(op, devices)
    ensures Inv(Step(db, op), devices)
  {
    match op
    case Select(_, _, _, _) => SelectKeepsInv(db, op, devices);
    case Release(_, _) => ReleaseKeepsInv(db, op, devices);
    case Authorize(_, _, _, _, _) => AuthorizeKeepsInv(db, op, devices);
    case Delete(_, _, _) => DeleteKeepsInv(db, op, devices);
  }

  lemma {:induction false} RunKeepsInv(db: Tables, ops: seq<Op>, devices: iset<string>)
    requires CollisionFree(devices) && Inv(db, devices)
    requires forall op :: op in ops ==> Allowed(op, devices)
    ensures Inv(Run(db, ops), devices)
    decreases |ops|
  {
    if ops != [] {
      StepKeepsInv(db, ops[0], devices);
      RunKeepsInv(Step(db, ops[0]), ops[1..], devices);
    }
  }

  /** The REST layer admits device accounts of sixteen bytes (internal/restapi/handler.go:196). */
  ghost const RestDevices: iset<string> := iset d: string | |d| == 16

  lemma ReachableStatesKeepInv(players: set<string>, ops: seq<Op>)
    requires "" !in players
    requires forall op :: op in ops && op.Authorize? ==> |op.device| == 16
    ensures Inv(Run(Tables(players, map[], map[], map[]), ops), RestDevices)
  {
    EqualLengthsNeverCollide(RestDevices, 16);
    RunKeepsInv(Tables(players, map[], map[], map[]), ops, RestDevices);
  }

  // ---------------------------------------------------------------- isolation between emulators

  /** Every emulator but `serial` keeps its row and its sessions; `serial` gains none of theirs. */
  ghost predicate OthersKept(before: Tables, after: Tables, serial: string, devices: iset<string>) {
    && (forall s :: s != serial ==> (s in before.profiles <==> s in after.profiles))
    && (forall s :: s != serial && s in before.profiles ==> after.profiles[s] == before.profiles[s])
    && (forall s, t :: s != serial && t in before.sessions && Owns(s, before.sessions[t].account, devices)
                       ==> t in after.sessions && after.sessions[t] == before.sessions[t])
    && (forall s, t :: s != serial && t in after.sessions && Owns(s, after.sessions[t].account, devices)
                       ==> t in before.sessions && after.sessions[t] == before.sessions[t])
  }

  lemma StepsAreIsolated(db: Tables, op: Op, devices: iset<string>)
    requires CollisionFree(devices) && Inv(db, devices) && Allowed(op, devices) && !op.Delete?
    ensures OthersKept(db, Step(db, op), op.serial, devices)
  {
    var next := Step(db, op);
    if op.Authorize? && op.device != "" {
      assert Owns(op.serial, AccountName(op.serial, op.device), devices);
    }
    forall s, t | s != op.serial && t in next.sessions && Owns(s, next.sessions[t].account, devices)
      ensures t in db.sessions && next.sessions[t] == db.sessions[t]
    {
      if AccountOf(db, op.serial) == next.sessions[t].account {
        OneOwner(s, op.serial, next.sessions[t].account, devices);
      }
      if op.Authorize? && op.device != "" && AccountName(op.serial, op.device) == next.sessions[t].account {
        OneOwner(s, op.serial, next.sessions[t].account, devices);
      }
    }
  }

  /** Deleting a profile disturbs no reservation and no emulator's live session. */
  lemma DeleteIsInvisibleToRunningGames(db: Tables, op: Op, devices: iset<string>)
    requires op.Delete? && Inv(db, devices)
    ensures forall s :: Reservation(Step(db, op), s) == Reservation(db, s)
    ensures forall s, t :: Live(db, t) && Owns(s, db.sessions[t].account, devices)
                           ==> t in Step(db, op).sessions && Step(db, op).sessions[t] == db.sessions[t]
  {
    var next := Step(db, op);
    forall s, t | Live(db, t) && Owns(s, db.sessions[t].account, devices)
      ensures t in next.sessions && next.sessions[t] == db.sessions[t]
    {
      assert Backed(db, s, db.sessions[t]);
    }
    forall s ensures Reservation(next, s) == Reservation(db, s) {
      if s in db.profiles && db.profiles[s].player == Some(op.player) {
        assert db.profiles[s].active ==> Holds(db, s, op.player);
      }
    }
  }

  // ---------------------------------------------------------------- the session check

  /** Manager.PlayerBySession of an emulator's own server (internal/player/manager.go:776-788) over the
      store query of internal/store/store.go:915. */
  function PlayerBySession(db: Tables, emulator: string, token: string, now: int): Result<string, Error> {
    if token in db.sessions && db.sessions[token].revokedAt.None? && db.sessions[token].expiresAt > now
       && db.sessions[token].account in db.activeProfiles
       && db.activeProfiles[db.sessions[token].account] == db.sessions[token].player
       && Holds(db, emulator, db.sessions[token].player)
       && db.profiles[emulator].deviceAccount == db.sessions[token].account
    then Ok(db.sessions[token].player)
    else Err(InvalidSession)
  }

  /** An emulator's server accepts a token exactly when it is that emulator's own live session. */
  lemma AcceptsExactlyOwnSessions(db: Tables, emulator: string, token: string, now: int, devices: iset<string>)
    requires Inv(db, devices)
    ensures PlayerBySession(db, emulator, token, now).Ok? <==>
            Live(db, token) && db.sessions[token].expiresAt > now && Owns(emulator, db.sessions[token].account, devices)
  {
    if Live(db, token) && Owns(emulator, db.sessions[token].account, devices) {
      assert Backed(db, emulator, db.sessions[token]);
    }
  }

  /** A login opens a session for the reserved player that lasts its lifetime and no longer. */
  lemma LoginIsUsable(db: Tables, serial: string, device: string, token: string, now: int, lifetime: int, at: int)
    requires Schema(db) && TryAuthorize(db, serial, device, token, now, lifetime).Ok?
    ensures PlayerBySession(TryAuthorize(db, serial, device, token, now, lifetime).value, serial, token, at) ==
            if at < now + lifetime then Ok(Reservation(db, serial).value) else Err(InvalidSession)
  {
  }

  /** An operation on another emulator, or a deletion. */
  predicate Elsewhere(op: Op, serial: string) {
    op.Delete? || op.serial != serial
  }

  lemma StepElsewhereKeepsSession(db: Tables, op: Op, serial: string, token: string, at: int, devices: iset<string>)
    requires CollisionFree(devices) && Inv(db, devices) && Allowed(op, devices) && Elsewhere(op, serial)
    ensures PlayerBySession(Step(db, op), serial, token, at) == PlayerBySession(db, serial, token, at)
  {
    hide Step, Owns;
    var next := Step(db, op);
    StepKeepsInv(db, op, devices);
    AcceptsExactlyOwnSessions(db, serial, token, at, devices);
    AcceptsExactlyOwnSessions(next, serial, token, at, devices);
    if op.Delete? {
      DeleteIsInvisibleToRunningGames(db, op, devices);
      DeletedSessionsStayDead(db, op, token);
    } else {
      StepsAreIsolated(db, op, devices);
    }
  }

  lemma DeletedSessionsStayDead(db: Tables, op: Op, token: string)
    requires op.Delete?
    ensures Live(Step(db, op), token) ==> Live(db, token) && Step(db, op).sessions[token] == db.sessions[token]
  {
  }

  /** Over any run on the other emulators a server keeps accepting exactly the same tokens. */
  lemma {:induction false} OthersKeepPlaying(db: Tables, ops: seq<Op>, serial: string, token: string, at: int,
      devices: iset<string>)
    requires CollisionFree(devices) && Inv(db, devices)
    requires forall op :: op in ops ==> Allowed(op, devices) && Elsewhere(op, serial)
    ensures PlayerBySession(Run(db, ops), serial, token, at) == PlayerBySession(db, serial, token, at)
    decreases |ops|
  {
    hide PlayerBySession, Step;
    if ops != [] {
      StepKeepsInv(db, ops[0], devices);
      StepElsewhereKeepsSession(db, ops[0], serial, token, at, devices);
      OthersKeepPlaying(Step(db, ops[0]), ops[1..], serial, token, at, devices);
    }
  }

  // ---------------------------------------------------------------- exactly which device accounts are safe

  ghost predicate RunsStaySafe(devices: iset<string>) {
    forall db, ops: seq<Op> :: Inv(db, devices) && (forall op :: op in ops ==> Allowed(op, devices))
                     ==> LiveBacked(Run(db, ops), devices)
  }

  /** When the device accounts of two emulators collide, a login on the second opens a session that also
      belongs to the first one, for a player the first one does not hold. */
  lemma CollisionBreaksSessions(d1: string, d2: string, devices: iset<string>)
    requires d1 in devices && d2 in devices && d2 != "" && ColonSuffix(d1, d2)
    ensures !RunsStaySafe(devices)
  {
    var s1, s2 := "a", "a:" + d1[..|d1| - |d2| - 1];
    AccountCollision(s1, d1, s2, d2);
    assert s2 == s1 + ":" + d1[..|d1| - |d2| - 1];
    var account := AccountName(s1, d1);
    assert Owns(s1, account, devices);
    var db := Tables({"p", "q"},
                     map[s1 := Profile(Some("p"), account, true, 0), s2 := Profile(Some("q"), "", true, 0)],
                     map[], map[]);
    assert Inv(db, devices);
    var ops := [Authorize(s2, d2, "t", 0, 1)];
    var next := Step(db, ops[0]);
    assert Run(next, ops[1..]) == next && Run(db, ops) == next;
    assert Live(next, "t") && next.sessions["t"].player == "q" && next.sessions["t"].account == account;
    assert !Backed(next, s1, next.sessions["t"]);
  }

  lemma SafeExactlyWhenCollisionFree(devices: iset<string>)
    ensures RunsStaySafe(devices) <==> CollisionFree(devices)
  {
    if CollisionFree(devices) {
      forall db, ops: seq<Op> | Inv(db, devices) && (forall op :: op in ops ==> Allowed(op, devices))
        ensures LiveBacked(Run(db, ops), devices)
      {
        RunKeepsInv(db, ops, devices);
      }
    } else {
      var d1, d2 :| d1 in devices && d2 in devices && d2 != "" && ColonSuffix(d1, d2);
      CollisionBreaksSessions(d1, d2, devices);
    }
  }
}
