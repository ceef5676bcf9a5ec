/** The reservation and session protocol of internal/store/emulators.go.

    The tables a transaction touches are one value, `Tables`. A method works on a copy `tx` and
    assigns it back only where the source commits, so every error leaves the store as it was. */
module Emulators {
  import opened Wrappers

  datatype Profile = Profile(player: Option<string>, deviceAccount: string, active: bool, startedAt: int)

  datatype Session = Session(player: string, account: string, createdAt: int, expiresAt: int, revokedAt: Option<int>)

  datatype Tables = Tables(
    players: set<string>,
    profiles: map<string, Profile>,       // emulator_profiles, by serial
    activeProfiles: map<string, string>,  // active_profiles, device account to player
    sessions: map<string, Session>)       // by token hash

  datatype Error =
    | InvalidArgument
    | InvalidCredentials
    | InvalidSession
    | PlayerInUse
    | NotFound
    | ForeignKey      // the database rejects an unknown player
    | UniqueIndex     // the database rejects a second active row for a player
    | DuplicateToken

  // ---------------------------------------------------------------- rows

  function AccountName(serial: string, device: string): string {
    "emulator:" + serial + ":" + device
  }

  predicate Holds(db: Tables, serial: string, player: string) {
    serial in db.profiles && db.profiles[serial].active && db.profiles[serial].player == Some(player)
  }

  predicate ReservedElsewhere(db: Tables, player: string, serial: string) {
    exists other :: other in db.profiles && other != serial && Holds(db, other, player)
  }

  /** The player an emulator actively reserves. */
  function Reservation(db: Tables, serial: string): Option<string> {
    if serial in db.profiles && db.profiles[serial].active then db.profiles[serial].player else None
  }

  function AccountOf(db: Tables, serial: string): string {
    if serial in db.profiles then db.profiles[serial].deviceAccount else ""
  }

  function Revoke(sessions: map<string, Session>, accounts: set<string>, now: int): map<string, Session> {
    map t | t in sessions ::
      if sessions[t].account in accounts && sessions[t].revokedAt.None?
      then sessions[t].(revokedAt := Some(now)) else sessions[t]
  }

  /** What the database itself guarantees: non-empty generated player ids, the foreign keys and the
      partial unique index (internal/store/migrate.go:27-59). */
  ghost predicate Schema(db: Tables) {
    && "" !in db.players
    && (forall s :: s in db.profiles && db.profiles[s].player.Some? ==> db.profiles[s].player.value in db.players)
    && (forall s, s', p :: Holds(db, s, p) && Holds(db, s', p) ==> s == s')
    && (forall a :: a in db.activeProfiles ==> db.activeProfiles[a] in db.players)
    && (forall t :: t in db.sessions ==> db.sessions[t].player in db.players)
  }

  // ---------------------------------------------------------------- transactions as functions

  function TrySelect(db: Tables, serial: string, player: string, active: bool, now: int): Result<Tables, Error> {
    if serial == "" || player == "" then Err(InvalidArgument)
    else if ReservedElsewhere(db, player, serial) then Err(PlayerInUse)
    else if player !in db.players then Err(ForeignKey)
    else
      var account := AccountOf(db, serial);
      Ok(db.(
         profiles := db.profiles[serial := Profile(Some(player), account, active, now)],
         sessions := if account == "" then db.sessions else Revoke(db.sessions, {account}, now)))
  }

  function Released(db: Tables, serial: string, now: int): Tables {
    if serial !in db.profiles then db
    else db.(profiles := db.profiles[serial := db.profiles[serial].(active := false)],
             sessions := Revoke(db.sessions, {db.profiles[serial].deviceAccount}, now))
  }

  function TryAuthorize(db: Tables, serial: string, device: string, token: string, now: int, lifetime: int)
    : Result<Tables, Error>
  {
    if serial == "" || device == "" then Err(InvalidCredentials)
    else if Reservation(db, serial).None? then Err(NotFound)
    else if token in db.sessions then Err(DuplicateToken)
    else
      var player := Reservation(db, serial).value;
      var account := AccountName(serial, device);
      Ok(db.(
         profiles := db.profiles[serial := db.profiles[serial].(deviceAccount := account)],
         activeProfiles := db.activeProfiles[account := player],
         sessions := Revoke(db.sessions, {account, AccountOf(db, serial)}, now)
                       [token := Session(player, account, now, now + lifetime, None)]))
  }

  /** DeletePlayer (internal/store/profile_lifecycle.go:220-280). `replacements` stands for the rows its
      query finds for the device accounts that had the deleted player active. */
  function TryDelete(db: Tables, player: string, replacements: map<string, string>, now: int): Result<Tables, Error> {
    if exists s :: s in db.profiles && Holds(db, s, player) then Err(PlayerInUse)
    else if player !in db.players then Err(NotFound)
    else
      var players := db.players - {player};
      var moved := set a | a in db.activeProfiles && db.activeProfiles[a] == player
                           && a in replacements && replacements[a] in players :: a;
      var kept := map t | t in db.sessions && db.sessions[t].player != player :: db.sessions[t];
      Ok(Tables(
         players,
         map s | s in db.profiles ::
           if db.profiles[s].player == Some(player) then db.profiles[s].(player := None) else db.profiles[s],
         map a | a in db.activeProfiles && (db.activeProfiles[a] != player || a in moved) ::
           if db.activeProfiles[a] == player then replacements[a] else db.activeProfiles[a],
         Revoke(kept, moved, now)))
  }

  function Commit(db: Tables, outcome: Result<Tables, Error>): Tables {
    if outcome.Ok? then outcome.value else db
  }

  function Verdict(outcome: Result<Tables, Error>): Result<(), Error> {
    if outcome.Ok? then Ok(()) else Err(outcome.error)
  }

  // ---------------------------------------------------------------- the store

  class Store {
    var db: Tables

    constructor (db: Tables)
      ensures this.db == db
    {
      this.db := db;
    }

    /** The check before the update makes the unique index redundant: it never fires. */
    method SelectEmulatorPlayer(serial: string, player: string, active: bool, now: int)
      returns (r: Result<(), Error>)
      requires Schema(db)
      modifies this
      ensures Schema(db)
      ensures db == Commit(old(db), TrySelect(old(db), serial, player, active, now))
      ensures r == Verdict(TrySelect(old(db), serial, player, active, now))
      ensures r != Err(UniqueIndex)
    {
      if serial == "" || player == "" {
        return Err(InvalidArgument);
      }
      var tx := db;
      if serial !in tx.profiles {
        tx := tx.(profiles := tx.profiles[serial := Profile(None, "", false, 0)]);
      }
      assert forall s, p :: s != serial ==> Holds(tx, s, p) == Holds(db, s, p);
      var taken := exists other :: other in tx.profiles && other != serial && Holds(tx, other, player);
      if taken {
        var other :| other in tx.profiles && other != serial && Holds(tx, other, player);
        assert Holds(db, other, player);
        return Err(PlayerInUse);
      }
      assert !ReservedElsewhere(db, player, serial);
      var account := tx.profiles[serial].deviceAccount;
      if player !in tx.players {
        return Err(ForeignKey);
      }
      var row := tx.profiles[serial].(player := Some(player), active := active, startedAt := now);
      tx := tx.(profiles := tx.profiles[serial := row]);
      if active && exists other :: other in tx.profiles && other != serial && Holds(tx, other, player) {
        return Err(UniqueIndex);
      }
      if account != "" {
        tx := tx.(sessions := Revoke(tx.sessions, {account}, now));
      }
      SelectKeepsSchema(db, serial, player, active, now);
      assert tx.profiles == TrySelect(db, serial, player, active, now).value.profiles;
      db := tx;
      return Ok(());
    }

    method ReleaseEmulator(serial: string, now: int)
      requires Schema(db)
      modifies this
      ensures Schema(db)
      ensures db == Released(old(db), serial, now)
    {
      var tx := db;
      if serial in tx.profiles {
        tx := tx.(profiles := tx.profiles[serial := tx.profiles[serial].(active := false)]);
        tx := tx.(sessions := Revoke(tx.sessions, {tx.profiles[serial].deviceAccount}, now));
      }
      ReleaseKeepsSchema(db, serial, now);
      db := tx;
    }

    method AuthorizeEmulator(serial: string, device: string, token: string, now: int, lifetime: int)
      returns (r: Result<(), Error>)
      requires Schema(db)
      modifies this
      ensures Schema(db)
      ensures db == Commit(old(db), TryAuthorize(old(db), serial, device, token, now, lifetime))
      ensures r == Verdict(TryAuthorize(old(db), serial, device, token, now, lifetime))
    {
      if serial == "" || device == "" {
        return Err(InvalidCredentials);
      }
      var account := AccountName(serial, device);
      var tx := db;
      if serial !in tx.profiles || !tx.profiles[serial].active || tx.profiles[serial].player.None? {
        return Err(NotFound);
      }
      var selected, previous := tx.profiles[serial].player.value, tx.profiles[serial].deviceAccount;
      tx := tx.(activeProfiles := tx.activeProfiles[account := selected]);
      tx := tx.(sessions := Revoke(tx.sessions, {account, previous}, now));
      tx := tx.(profiles := tx.profiles[serial := tx.profiles[serial].(deviceAccount := account)]);
      if token in tx.sessions {
        return Err(DuplicateToken);
      }
      tx := tx.(sessions := tx.sessions[token := Session(selected, account, now, now + lifetime, None)]);
      AuthorizeKeepsSchema(db, serial, device, token, now, lifetime);
      db := tx;
      return Ok(());
    }

    /** The player-to-serial map loses no active reservation, because none shares its player. */
    method EmulatorPlayers() returns (owners: map<string, string>)
      requires Schema(db)
      ensures forall p, s :: (p in owners && owners[p] == s) <==> Holds(db, s, p)
    {
      owners := map[];
      var rows := db.profiles.Keys;
      while rows != {}
        invariant rows <= db.profiles.Keys
        invariant forall p, s :: (p in owners && owners[p] == s) <==> (Holds(db, s, p) && s !in rows)
        decreases rows
      {
        var serial :| serial in rows;
        rows := rows - {serial};
        var row := db.profiles[serial];
        if row.active && row.player.Some? {
          assert Holds(db, serial, row.player.value);
          owners := owners[row.player.value := serial];
        }
      }
    }

    function EmulatorProfile(serial: string): (profile: Profile)
      reads this
    {
      if serial in db.profiles then db.profiles[serial] else Profile(None, "", false, 0)
    }
  }

  // ---------------------------------------------------------------- schema preservation

  lemma SelectKeepsSchema(db: Tables, serial: string, player: string, active: bool, now: int)
    requires Schema(db)
    ensures Schema(Commit(db, TrySelect(db, serial, player, active, now)))
  {
    var next := Commit(db, TrySelect(db, serial, player, active, now));
    assert forall s, p :: s != serial ==> Holds(next, s, p) == Holds(db, s, p);
  }

  lemma ReleaseKeepsSchema(db: Tables, serial: string, now: int)
    requires Schema(db)
    ensures Schema(Released(db, serial, now))
  {
    var next := Released(db, serial, now);
    assert forall s, p :: Holds(next, s, p) ==> Holds(db, s, p);
  }

  lemma AuthorizeKeepsSchema(db: Tables, serial: string, device: string, token: string, now: int, lifetime: int)
    requires Schema(db)
    ensures Schema(Commit(db, TryAuthorize(db, serial, device, token, now, lifetime)))
  {
    var next := Commit(db, TryAuthorize(db, serial, device, token, now, lifetime));
    assert forall s, p :: Holds(next, s, p) == Holds(db, s, p);
  }

  lemma DeleteKeepsSchema(db: Tables, player: string, replacements: map<string, string>, now: int)
    requires Schema(db)
    ensures Schema(Commit(db, TryDelete(db, player, replacements, now)))
  {
    var next := Commit(db, TryDelete(db, player, replacements, now));
    assert forall s, p :: Holds(next, s, p) ==> Holds(db, s, p);
  }
}
