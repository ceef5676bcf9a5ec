/** What each transaction of internal/store/emulators.go answers and does, over any state, in terms of the rows. */
module EmulatorLaws {
  import opened Wrappers
  import opened Emulators
  import opened EmulatorRuns

  /** The sessions after `accounts` were logged out: the live ones of these accounts end at `now`. */
  ghost predicate LoggedOut(before: map<string, Session>, after: map<string, Session>, accounts: set<string>, now: int)
  {
    && after.Keys == before.Keys
    && forall t :: t in before ==>
         var s := before[t];
         after[t] == if s.account in accounts && s.revokedAt == None
                     then Session(s.player, s.account, s.createdAt, s.expiresAt, Some(now)) else s
  }

  /** Only the row of one serial may differ. */
  ghost predicate OtherRowsKept(before: map<string, Profile>, after: map<string, Profile>, serial: string) {
    after.Keys == before.Keys + {serial} && forall s :: s in before && s != serial ==> after[s] == before[s]
  }

  /** Another emulator actively holds the player. */
  ghost predicate Taken(db: Tables, player: string, serial: string) {
    exists s :: s in db.profiles && s != serial && db.profiles[s].active && db.profiles[s].player == Some(player)
  }

  /** A selection succeeds if and only if its fields are set, the player exists and no other emulator holds it. Then
      the row names the player from `now` on and the sessions of the emulator's account end. */
  lemma SelectExactly(db: Tables, serial: string, player: string, active: bool, now: int)
    requires Schema(db)
    ensures var r := Verdict(TrySelect(db, serial, player, active, now));
      r == if serial == "" || player == "" then Err(InvalidArgument)
           else if Taken(db, player, serial) then Err(PlayerInUse)
           else if player !in db.players then Err(ForeignKey)
           else Ok(())
    ensures var next := Commit(db, TrySelect(db, serial, player, active, now));
      if TrySelect(db, serial, player, active, now).Err? then next == db else
        var account := if serial in db.profiles then db.profiles[serial].deviceAccount else "";
        && OtherRowsKept(db.profiles, next.profiles, serial)
        && next.profiles[serial] == Profile(Some(player), account, active, now)
        && LoggedOut(db.sessions, next.sessions, if account == "" then {} else {account}, now)
        && next.players == db.players && next.activeProfiles == db.activeProfiles
  {
    assert Taken(db, player, serial) <==> ReservedElsewhere(db, player, serial) by {
      if Taken(db, player, serial) {
        var s :| s in db.profiles && s != serial && db.profiles[s].active && db.profiles[s].player == Some(player);
        assert Holds(db, s, player);
      }
    }
  }

  /** A release always succeeds. It takes the flag off the row, which keeps its selection, and ends the sessions of the
      row's account; without a row nothing happens. */
  lemma ReleaseExactly(db: Tables, serial: string, now: int)
    ensures var next := Released(db, serial, now);
      if serial !in db.profiles then next == db else
        var row := db.profiles[serial];
        && OtherRowsKept(db.profiles, next.profiles, serial)
        && next.profiles[serial] == Profile(row.player, row.deviceAccount, false, row.startedAt)
        && LoggedOut(db.sessions, next.sessions, {row.deviceAccount}, now)
        && next.players == db.players && next.activeProfiles == db.activeProfiles
  {
  }

  /** A login succeeds if and only if its fields are set, the emulator actively reserves a player and the token is new,
      whether or not the emulator has logged in before. */
  lemma AuthorizeExactly(db: Tables, serial: string, device: string, token: string, now: int, lifetime: int)
    ensures var r := Verdict(TryAuthorize(db, serial, device, token, now, lifetime));
      r == if serial == "" || device == "" then Err(InvalidCredentials)
           else if serial !in db.profiles || !db.profiles[serial].active || db.profiles[serial].player == None
             then Err(NotFound)
           else if token in db.sessions then Err(DuplicateToken)
           else Ok(())
    ensures var next := Commit(db, TryAuthorize(db, serial, device, token, now, lifetime));
      if TryAuthorize(db, serial, device, token, now, lifetime).Err? then next == db else
        var row, account := db.profiles[serial], "emulator:" + serial + ":" + device;
        && OtherRowsKept(db.profiles, next.profiles, serial)
        && next.profiles[serial] == Profile(row.player, account, true, row.startedAt)
        && next.activeProfiles == db.activeProfiles[account := row.player.value]
        && token in next.sessions
        && next.sessions[token] == Session(row.player.value, account, now, now + lifetime, None)
        && LoggedOut(db.sessions, next.sessions - {token}, {account, row.deviceAccount}, now)
        && next.players == db.players
  {
  }

  /** A deletion succeeds if and only if the player exists and no emulator holds it. It takes the player, its sessions
      and its remembered selections away; a device account that had it active moves on to a replacement, whose sessions
      for other players end, or loses its row. */
  lemma DeleteExactly(db: Tables, player: string, replacements: map<string, string>, now: int)
    ensures var r := Verdict(TryDelete(db, player, replacements, now));
      r == if Taken(db, player, "") || Holds(db, "", player) then Err(PlayerInUse)
           else if player !in db.players then Err(NotFound)
           else Ok(())
    ensures var next := Commit(db, TryDelete(db, player, replacements, now));
      if TryDelete(db, player, replacements, now).Err? then next == db else
        && next.players == db.players - {player}
        && next.profiles.Keys == db.profiles.Keys
        && (forall s :: s in db.profiles ==>
              var row := db.profiles[s];
              next.profiles[s] == if row.player == Some(player)
                                  then Profile(None, row.deviceAccount, row.active, row.startedAt) else row)
        && (forall a :: a in next.activeProfiles <==>
              a in db.activeProfiles
              && (db.activeProfiles[a] == player ==> a in replacements && replacements[a] in next.players))
        && (forall a :: a in next.activeProfiles ==>
              next.activeProfiles[a] == if db.activeProfiles[a] == player then replacements[a]
                                        else db.activeProfiles[a])
        && (forall t :: t in next.sessions <==> t in db.sessions && db.sessions[t].player != player)
        && (forall t :: t in next.sessions ==>
              var s := db.sessions[t];
              var moved := s.account in next.activeProfiles && db.activeProfiles[s.account] == player;
              next.sessions[t] == if moved && s.revokedAt == None
                                  then Session(s.player, s.account, s.createdAt, s.expiresAt, Some(now)) else s)
  {
    assert (exists s :: s in db.profiles && Holds(db, s, player)) <==>
           Taken(db, player, "") || Holds(db, "", player) by {
      if Taken(db, player, "") {
        var s :| s in db.profiles && s != "" && db.profiles[s].active && db.profiles[s].player == Some(player);
        assert Holds(db, s, player);
      }
    }
  }

  // ---------------------------------------------------------------- logging in again

  ghost predicate DeadOrGone(db: Tables, token: string) {
    token in db.sessions ==> db.sessions[token].revokedAt.Some?
  }

  /** An ended session is never accepted again, whatever happens, as long as its token is not given out once more. */
  lemma {:induction false} DeadSessionsStayDead(db: Tables, ops: seq<Op>, emulator: string, token: string, at: int)
    requires DeadOrGone(db, token)
    requires forall op :: op in ops && op.Authorize? ==> op.token != token
    ensures PlayerBySession(Run(db, ops), emulator, token, at) == Err(InvalidSession)
    decreases |ops|
  {
    if ops != [] {
      StepLeavesDead(db, ops[0], token);
      DeadSessionsStayDead(Step(db, ops[0]), ops[1..], emulator, token, at);
    }
  }

  lemma StepLeavesDead(db: Tables, op: Op, token: string)
    requires DeadOrGone(db, token) && (op.Authorize? ==> op.token != token)
    ensures DeadOrGone(Step(db, op), token)
  {
  }

  /** An emulator that logs in twice in a row, as a restarted game does, uses the second token from then on and never
      the first one again. */
  lemma SecondLoginReplacesTheFirst(db: Tables, serial: string, first: Op, second: Op, ops: seq<Op>, at: int)
    requires first.Authorize? && second.Authorize? && first.serial == second.serial == serial
    requires Attempt(db, first).Ok?
    requires second.device != "" && second.token !in db.sessions && second.token != first.token
    requires forall op :: op in ops && op.Authorize? ==> op.token != first.token
    ensures var once := Step(db, first);
      var twice := Step(once, second);
      && Attempt(once, second).Ok?
      && PlayerBySession(twice, serial, second.token, at) ==
         (if at < second.now + second.lifetime then Ok(db.profiles[serial].player.value) else Err(InvalidSession))
      && PlayerBySession(Run(twice, ops), serial, first.token, at) == Err(InvalidSession)
  {
    var once := Step(db, first);
    AuthorizeExactly(db, serial, first.device, first.token, first.now, first.lifetime);
    AuthorizeExactly(once, serial, second.device, second.token, second.now, second.lifetime);
    var twice := Step(once, second);
    assert once.sessions[first.token].account == once.profiles[serial].deviceAccount;
    assert first.token in twice.sessions - {second.token};
    assert twice.sessions[first.token] == (twice.sessions - {second.token})[first.token];
    DeadSessionsStayDead(twice, ops, serial, first.token, at);
  }
}
