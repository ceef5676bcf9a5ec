/** The control side of the protocol, internal/control/emulators.go. */
module MultiRunner {
  import opened Wrappers
  import opened Emulators
  import opened EmulatorRuns
  import opened EmulatorLaws
  import opened GameTime

  datatype Runtime = Runtime(address: string, adminAddress: string, legacy: bool)

  datatype OpenError =
    | SelectionChanged
    | NotReady
    | Refused(error: Error)
    | LaunchFailed(restore: Result<(), Error>)

  datatype PortError = NoFreePort | SaveFailed | StartFailed

  datatype ControlError = NoDevice(error: PortError) | StopFailed | StatusFailed

  /** What Status and stopAll meet outside: the ports on offer, whether the runtimes file is written and the device
      starts, the emulator that is found when none is selected, whether the selected device answers, the servers that
      run, the games seen to have exited, and the time in nanoseconds. */
  datatype Observation = Observation(
    offers: seq<string>, saved: bool, started: bool, found: Option<string>, reachable: bool,
    running: set<string>, exited: set<string>, clock: int)

  /** While this runner is busy its own selections and releases wait (internal/control/emulators.go:40-41);
      everything else may commit. */
  ghost predicate Foreign(ops: seq<Op>, serial: string) {
    forall op :: op in ops && (op.Select? || op.Release?) ==> op.serial != serial
  }

  lemma {:induction false} ForeignRun(db: Tables, ops: seq<Op>, serial: string, player: string)
    requires Schema(db) && Foreign(ops, serial) && Holds(db, serial, player)
    ensures Schema(Run(db, ops)) && Holds(Run(db, ops), serial, player)
    decreases |ops|
  {
    if ops != [] {
      var next := Step(db, ops[0]);
      match ops[0] {
        case Select(s, p, active, now) => SelectKeepsSchema(db, s, p, active, now);
        case Release(s, now) => ReleaseKeepsSchema(db, s, now);
        case Authorize(s, device, token, now, lifetime) => AuthorizeKeepsSchema(db, s, device, token, now, lifetime);
        case Delete(p, replacements, now) => DeleteKeepsSchema(db, p, replacements, now);
      }
      assert Holds(next, serial, player);
      ForeignRun(next, ops[1..], serial, player);
    }
  }

  /** The previous selection can be taken back: it still exists and no other emulator holds it. */
  predicate Restorable(db: Tables, serial: string, previous: Profile) {
    previous.player.None?
    || (previous.player.value in db.players && !ReservedElsewhere(db, previous.player.value, serial))
  }

  /** What a failed launch leaves. With a previous player that can be taken back, the row names it again with its old
      flag from `later` on; one that cannot be taken back changes nothing; without one the reservation is given up.
      In both changes the sessions of the emulator's account end and everything else stays. */
  ghost predicate RolledBack(mid: Tables, after: Tables, serial: string, previous: Profile, later: int) {
    if previous.player.Some? && !Restorable(mid, serial, previous) then after == mid
    else
      && serial in mid.profiles && OtherRowsKept(mid.profiles, after.profiles, serial)
      && after.players == mid.players && after.activeProfiles == mid.activeProfiles
      && var row := mid.profiles[serial];
         if previous.player == None then
           after.profiles[serial] == Profile(row.player, row.deviceAccount, false, row.startedAt)
           && LoggedOut(mid.sessions, after.sessions, {row.deviceAccount}, later)
         else
           after.profiles[serial] == Profile(previous.player, row.deviceAccount, previous.active, later)
           && LoggedOut(mid.sessions, after.sessions, {row.deviceAccount} - {""}, later)
  }

  /** The store after the reservation was undone. */
  function Undone(mid: Tables, serial: string, previous: Profile, later: int): Result<Tables, Error> {
    if previous.player.Some? then TrySelect(mid, serial, previous.player.value, previous.active, later)
    else Ok(Released(mid, serial, later))
  }

  lemma RestoreOutcome(before: Tables, mid: Tables, serial: string, player: string, previous: Profile, later: int)
    requires Schema(mid) && Holds(mid, serial, player) && serial != ""
    requires previous.player != Some("")
    requires Reservation(before, serial) == if previous.active then previous.player else None
    ensures var after := Commit(mid, Undone(mid, serial, previous, later));
      && (forall s :: s != serial ==> Reservation(after, s) == Reservation(mid, s))
      && (Reservation(after, serial) == Reservation(before, serial) <==> Restorable(mid, serial, previous))
      && (Undone(mid, serial, previous, later).Ok? <==> Restorable(mid, serial, previous))
      && RolledBack(mid, after, serial, previous, later)
  {
    if previous.player.Some? {
      SelectExactly(mid, serial, previous.player.value, previous.active, later);
      assert Restorable(mid, serial, previous) <==> Undone(mid, serial, previous, later).Ok?;
    } else {
      ReleaseExactly(mid, serial, later);
    }
  }

  predicate Addresses(runtimes: map<string, Runtime>, address: string) {
    exists s :: s in runtimes && (runtimes[s].address == address || runtimes[s].adminAddress == address)
  }

  /** No two servers share a port, and only a legacy runtime uses the base ports. */
  ghost predicate IndependentPorts(runtimes: map<string, Runtime>, address: string, adminAddress: string) {
    && address != adminAddress
    && (forall s :: s in runtimes ==> runtimes[s].address != runtimes[s].adminAddress)
    && (forall s :: s in runtimes ==>
                      if runtimes[s].legacy then
                        runtimes[s].address == address && runtimes[s].adminAddress == adminAddress
                      else Apart(runtimes[s], Runtime(address, adminAddress, true)))
    && (forall s, s' :: s in runtimes && s' in runtimes && s != s' ==> Apart(runtimes[s], runtimes[s']))
  }

  ghost predicate Apart(one: Runtime, other: Runtime) {
    && one.address != other.address && one.address != other.adminAddress
    && one.adminAddress != other.address && one.adminAddress != other.adminAddress
  }

  /** What a new entry must satisfy to keep the ports independent. */
  ghost predicate Unclaimed(runtimes: map<string, Runtime>, address: string, adminAddress: string, entry: Runtime) {
    if runtimes == map[] then entry == Runtime(address, adminAddress, true)
    else !entry.legacy && entry.address != entry.adminAddress
         && Apart(entry, Runtime(address, adminAddress, true))
         && !Addresses(runtimes, entry.address) && !Addresses(runtimes, entry.adminAddress)
  }

  lemma AddKeepsIndependence(runtimes: map<string, Runtime>, address: string, adminAddress: string, serial: string,
      entry: Runtime)
    requires IndependentPorts(runtimes, address, adminAddress) && serial !in runtimes
    requires Unclaimed(runtimes, address, adminAddress, entry)
    ensures IndependentPorts(runtimes[serial := entry], address, adminAddress)
  {
    forall s | s in runtimes ensures Apart(runtimes[s], entry) && Apart(entry, runtimes[s]) {
      assert runtimes != map[];
    }
  }

  class Runner {
    const store: Store
    const address: string
    const adminAddress: string
    var selected: string
    var runtimes: map<string, Runtime>
    var devices: set<string>

    constructor (store: Store, address: string, adminAddress: string, selected: string)
      requires address != adminAddress
      ensures this.store == store && this.address == address && this.adminAddress == adminAddress
      ensures this.selected == selected && devices == {} && Independent()
    {
      this.store, this.address, this.adminAddress, this.selected := store, address, adminAddress, selected;
      runtimes, devices := map[], {};
    }

    ghost predicate Independent()
      reads this
    {
      IndependentPorts(runtimes, address, adminAddress)
    }

    predicate Used(candidate: string)
      reads this
    {
      candidate == address || candidate == adminAddress || Addresses(runtimes, candidate)
    }

    /** The first unused one of at most 32 offers. `offers` are the ports the operating system hands out in
        turn, until it fails; it may repeat any of them. */
    method UnusedAddress(offers: seq<string>) returns (found: Option<string>, rest: seq<string>)
      ensures found.Some? ==> |rest| < |offers| && !Used(found.value)
                              && var k := |offers| - |rest| - 1;
                                 k < 32 && offers[k] == found.value && rest == offers[k + 1..]
                                 && forall i :: 0 <= i < k ==> Used(offers[i])
      ensures found.None? ==> forall i :: 0 <= i < 32 && i < |offers| ==> Used(offers[i])
    {
      rest := offers;
      var attempt := 0;
      while attempt < 32 && rest != []
        invariant 0 <= attempt <= |offers| && attempt <= 32 && rest == offers[attempt..]
        invariant forall i :: 0 <= i < attempt ==> Used(offers[i])
      {
        var candidate := rest[0];
        rest := rest[1..];
        var used := candidate == address || candidate == adminAddress;
        var pending := runtimes.Keys;
        while pending != {}
          invariant pending <= runtimes.Keys
          invariant used <==> candidate in {address, adminAddress}
                              || exists s :: s in runtimes.Keys - pending
                                             && (runtimes[s].address == candidate
                                                 || runtimes[s].adminAddress == candidate)
          decreases pending
        {
          var s :| s in pending;
          pending := pending - {s};
          used := used || candidate == runtimes[s].address || candidate == runtimes[s].adminAddress;
        }
        if !used {
          return Some(candidate), rest;
        }
        attempt := attempt + 1;
      }
      return None, rest;
    }

    /** Why a search fails: 32 used offers in a row, or no two different unused ones. */
    ghost predicate Exhausted(offers: seq<string>)
      reads this
    {
      || (exists k :: UsedRow(offers, k))
      || forall i, j :: 0 <= i < j < |offers| && !Used(offers[i]) && !Used(offers[j]) ==> offers[i] == offers[j]
    }

    ghost predicate UsedRow(offers: seq<string>, k: int)
      reads this
    {
      0 <= k && k + 32 <= |offers| && forall i :: k <= i < k + 32 ==> Used(offers[i])
    }

    /** The addresses of a new runtime: the base ports for the first one, unused ports after that. */
    method NewEntry(offers: seq<string>) returns (entry: Option<Runtime>)
      requires Independent()
      ensures entry.Some? ==> Unclaimed(runtimes, address, adminAddress, entry.value)
      ensures entry.Some? && runtimes != map[] ==> entry.value.address in offers && entry.value.adminAddress in offers
      ensures entry.None? ==> runtimes != map[] && Exhausted(offers)
    {
      if runtimes == map[] {
        return Some(Runtime(address, adminAddress, true));
      }
      var first, rest := UnusedAddress(offers);
      if first.None? {
        NothingLeft(offers, 0, "");
        return None;
      }
      ghost var at := |offers| - |rest|;
      assert offers[at - 1] == first.value;
      var second;
      second, rest := UnusedAddress(rest);
      while second.Some? && second.value == first.value
        invariant 0 <= at <= |offers| && forall i :: 0 <= i < at ==> Used(offers[i]) || offers[i] == first.value
        invariant second.Some? ==> !Used(second.value) && second.value in offers[at..]
                                   && |rest| < |offers| - at && rest == offers[|offers| - |rest|..]
                                   && forall i :: at <= i < |offers| - |rest|
                                       ==> Used(offers[i]) || offers[i] == second.value
        invariant second.None? ==> forall i :: at <= i < at + 32 && i < |offers| ==> Used(offers[i])
        decreases |offers| - at + (if second.Some? then 1 else 0)
      {
        at := |offers| - |rest|;
        second, rest := UnusedAddress(rest);
      }
      if second.None? {
        NothingLeft(offers, at, first.value);
        return None;
      }
      return Some(Runtime(first.value, second.value, false));
    }

    lemma NothingLeft(offers: seq<string>, at: nat, first: string)
      requires at <= |offers|
      requires forall i :: 0 <= i < at ==> Used(offers[i]) || offers[i] == first
      requires forall i :: at <= i < at + 32 && i < |offers| ==> Used(offers[i])
      ensures Exhausted(offers)
    {
      if at + 32 <= |offers| {
        assert UsedRow(offers, at);
      }
    }

    method Device(serial: string, offers: seq<string>, saved: bool, started: bool)
      returns (r: Result<Runtime, PortError>)
      requires Independent() && devices <= runtimes.Keys
      modifies this
      ensures Independent() && devices <= runtimes.Keys && selected == old(selected)
      ensures devices == if r.Ok? then old(devices) + {serial} else old(devices)
      ensures r.Ok? ==> runtimes == old(runtimes)[serial := r.value]
      ensures r.Err? && r.error != StartFailed ==> runtimes == old(runtimes)
      ensures forall s :: s in old(runtimes) ==> s in runtimes && runtimes[s] == old(runtimes)[s]
      ensures serial in old(runtimes) ==>
                r == if serial in old(devices) || started then Ok(old(runtimes)[serial]) else Err(StartFailed)
      ensures serial !in old(runtimes) && r.Ok? ==> saved && started
      ensures serial !in old(runtimes) && r.Err? ==>
                match r.error
                case NoFreePort => old(runtimes) != map[] && old(Exhausted(offers))
                case SaveFailed => !saved
                case StartFailed => saved && !started && runtimes.Keys == old(runtimes).Keys + {serial}
    {
      hide IndependentPorts, Unclaimed, Exhausted;
      if serial in devices {
        return Ok(runtimes[serial]);
      }
      var table := runtimes;
      if serial !in table {
        var entry := NewEntry(offers);
        if entry.None? {
          return Err(NoFreePort);
        }
        AddKeepsIndependence(table, address, adminAddress, serial, entry.value);
        table := table[serial := entry.value];
        runtimes := table;
        if !saved {
          runtimes := table - {serial};
          assert runtimes.Keys == old(runtimes).Keys;
          assert runtimes == old(runtimes);
          return Err(SaveFailed);
        }
      }
      if !started {
        return Err(StartFailed);
      }
      devices := devices + {serial};
      return Ok(table[serial]);
    }

    /** Reserve, launch, and undo the reservation when the launch fails. `ready` is what Status reported, after
        it gave back stopped emulators; `during` are the transactions that other processes commit while the
        game is being launched. */
    method OpenPlayer(requested: string, ready: bool, player: string, now: int, launched: bool, during: seq<Op>,
        later: int)
      returns (r: Result<(), OpenError>)
      requires Schema(store.db) && Foreign(during, selected)
      modifies store
      ensures Schema(store.db)
      ensures r in {Err(SelectionChanged), Err(NotReady)} ==> store.db == old(store.db)
      ensures r == Err(SelectionChanged) <==> requested != "" && requested != selected
      ensures r == Err(NotReady) <==> (requested == "" || requested == selected) && !ready
      ensures r.Err? && r.error.Refused? ==>
                store.db == old(store.db) && TrySelect(old(store.db), selected, player, true, now) == Err(r.error.error)
      ensures r.Ok? || (r.Err? && r.error.LaunchFailed?) ==> TrySelect(old(store.db), selected, player, true, now).Ok?
      ensures r.Ok? ==> launched && Holds(store.db, selected, player)
      ensures r.Ok? ==> store.db == Run(TrySelect(old(store.db), selected, player, true, now).value, during)
      ensures r.Err? && r.error.LaunchFailed? ==> !launched
      ensures r.Err? && r.error.LaunchFailed? ==>
        var mid := Run(TrySelect(old(store.db), selected, player, true, now).value, during);
        var previous := if selected in old(store.db).profiles then old(store.db).profiles[selected]
                        else Profile(None, "", false, 0);
        && (forall s :: s != selected ==> Reservation(store.db, s) == Reservation(mid, s))
        && (Reservation(store.db, selected) == Reservation(old(store.db), selected)
            <==> Restorable(mid, selected, previous))
        && (r.error.restore.Ok? <==> Restorable(mid, selected, previous))
        && RolledBack(mid, store.db, selected, previous, later)
    {
      hide TrySelect, Released, Restorable, RolledBack;
      if requested != "" && requested != selected {
        return Err(SelectionChanged);
      }
      if !ready {
        return Err(NotReady);
      }
      ghost var before := store.db;
      var previous := store.EmulatorProfile(selected);
      var reserved := store.SelectEmulatorPlayer(selected, player, true, now);
      if reserved.Err? {
        return Err(Refused(reserved.error));
      }
      SelectExactly(before, selected, player, true, now);
      ForeignRun(store.db, during, selected, player);
      store.db := Run(store.db, during);
      if launched {
        return Ok(());
      }
      ghost var mid := store.db;
      var restore: Result<(), Error> := Ok(());
      RestoreOutcome(before, mid, selected, player, previous, later);
      if previous.player.Some? && previous.player.value != "" {
        restore := store.SelectEmulatorPlayer(selected, previous.player.value, previous.active, later);
      } else {
        store.ReleaseEmulator(selected, later);
      }
      return Err(LaunchFailed(restore));
    }

    /** A managed emulator has stopped: its server is down, or more than fifteen seconds after its launch the
        game is seen to have exited. `clock` is in nanoseconds. */
    predicate Stopped(db: Tables, serial: string, running: set<string>, exited: set<string>, clock: int)
      reads this
    {
      serial in devices && serial in db.profiles
      && (serial !in running || (clock - db.profiles[serial].startedAt * TICKS > 15 * TICKS && serial in exited))
    }

    /** A managed emulator whose server is down has stopped; one whose server runs has if and only if its game is gone
        later than fifteen seconds after the launch. */
    lemma GraceAfterLaunch(db: Tables, serial: string, running: set<string>, exited: set<string>, clock: int)
      requires serial in devices && serial in db.profiles
      ensures Stopped(db, serial, running, exited, clock) <==>
              serial !in running
              || (serial in exited && clock > (db.profiles[serial].startedAt + 15) * 1_000_000_000)
    {
    }

    /** Status gives back the account of every managed emulator that has stopped, and does nothing else. */
    method ReleaseStopped(running: set<string>, exited: set<string>, clock: int, now: int)
      requires Schema(store.db)
      modifies store
      ensures Schema(store.db)
      ensures forall s :: Reservation(store.db, s) ==
                          if Stopped(old(store.db), s, running, exited, clock) then None
                          else Reservation(old(store.db), s)
      ensures OnlyReleases(old(store.db), store.db, now)
    {
      var owners := store.EmulatorPlayers();
      ghost var before := store.db;
      ghost var done: seq<Op> := [];
      var pending := owners.Keys;
      while pending != {}
        invariant pending <= owners.Keys && Schema(store.db)
        invariant Releases(done, now) && store.db == Run(before, done)
        invariant forall s :: Reservation(store.db, s) == Reservation(before, s)
                              || (Stopped(before, s, running, exited, clock) && Reservation(store.db, s).None?)
        invariant forall s :: s in before.profiles ==>
                    s in store.db.profiles && store.db.profiles[s].startedAt == before.profiles[s].startedAt
        invariant forall p :: p in owners && p !in pending && Stopped(before, owners[p], running, exited, clock)
                              ==> Reservation(store.db, owners[p]).None?
        decreases pending
      {
        var player :| player in pending;
        pending := pending - {player};
        var serial := owners[player];
        assert Holds(before, serial, player);
        if serial in devices {
          var stopped := serial !in running;
          if !stopped {
            var profile := store.EmulatorProfile(serial);
            stopped := clock - profile.startedAt * TICKS > 15 * TICKS && serial in exited;
          }
          if stopped {
            OneMore(before, done, Release(serial, now));
            done := done + [Release(serial, now)];
            store.ReleaseEmulator(serial, now);
          }
        }
      }
      forall s | Stopped(before, s, running, exited, clock) && Reservation(before, s).Some?
        ensures Reservation(store.db, s).None?
      {
        assert Holds(before, s, Reservation(before, s).value);
      }
    }

    /** Inspects the selected device, or the one that is found, and gives back what has stopped. */
    method Status(seen: Observation, now: int) returns (r: Result<(), ControlError>)
      requires Schema(store.db) && Independent() && devices <= runtimes.Keys
      modifies this, store
      ensures Schema(store.db) && Independent() && devices <= runtimes.Keys
      ensures selected == if old(selected) == "" && seen.found.Some? then seen.found.value else old(selected)
      ensures r.Ok? ==> devices == old(devices) + (if old(selected) == "" && seen.found.None? then {} else {selected})
      ensures r.Err? ==>
                (r.error.NoDevice? && selected !in old(devices)) || (r.error == StatusFailed && !seen.reachable)
      ensures r.Ok? ==> (old(selected) == "" && seen.found.None?) || seen.reachable
      ensures r.Err? && old(selected) == "" ==> seen.found.Some?
      ensures forall s :: Reservation(store.db, s) ==
                          if r.Ok? && (old(selected) != "" || seen.found.Some?)
                             && Stopped(old(store.db), s, seen.running, seen.exited, seen.clock)
                          then None else Reservation(old(store.db), s)
      ensures OnlyReleases(old(store.db), store.db, now)
    {
      hide IndependentPorts, Exhausted, TrySelect, TryAuthorize, TryDelete, Schema;
      NothingDone(store.db, now);
      if selected == "" {
        if seen.found.None? {
          return Ok(());
        }
        selected := seen.found.value;
      }
      var device := Device(selected, seen.offers, seen.saved, seen.started);
      if device.Err? {
        return Err(NoDevice(device.error));
      }
      if !seen.reachable {
        return Err(StatusFailed);
      }
      ReleaseStopped(seen.running, seen.exited, seen.clock, now);
      return Ok(());
    }

    /** Gives back the account of every managed emulator whose server is down after its stop action. */
    method ReleaseDown(running: set<string>, now: int)
      requires Schema(store.db)
      modifies store
      ensures Schema(store.db)
      ensures forall s :: Reservation(store.db, s) ==
                          if s in devices - running then None else Reservation(old(store.db), s)
      ensures forall s :: (s in store.db.profiles <==> s in old(store.db).profiles)
                          && (s in store.db.profiles
                              ==> store.db.profiles[s].startedAt == old(store.db).profiles[s].startedAt)
      ensures OnlyReleases(old(store.db), store.db, now)
    {
      hide TrySelect, TryAuthorize, TryDelete, Schema;
      ghost var done: seq<Op> := [];
      var pending := devices;
      while pending != {}
        invariant pending <= devices && Schema(store.db)
        invariant Releases(done, now) && store.db == Run(old(store.db), done)
        invariant forall s :: Reservation(store.db, s) ==
                              if s in devices - pending && s !in running then None else Reservation(old(store.db), s)
        invariant forall s :: (s in store.db.profiles <==> s in old(store.db).profiles)
                              && (s in store.db.profiles ==>
                                    store.db.profiles[s].startedAt == old(store.db).profiles[s].startedAt)
        decreases pending
      {
        var serial :| serial in pending;
        pending := pending - {serial};
        if serial !in running {
          OneMore(old(store.db), done, Release(serial, now));
          done := done + [Release(serial, now)];
          store.ReleaseEmulator(serial, now);
        }
      }
    }

    /** Stopping everything: first the managed emulators whose server went down, then, unless a stop action failed,
        what Status finds stopped. `failed` are the devices whose stop action failed. */
    method StopAll(seen: Observation, failed: set<string>, now: int) returns (r: Result<(), ControlError>)
      requires Schema(store.db) && Independent() && devices <= runtimes.Keys
      modifies this, store
      ensures Schema(store.db) && Independent()
      ensures var managed := old(devices) + (if old(selected) == "" then {} else {old(selected)});
        && (r.Ok? ==> managed <= devices && managed !! failed)
        && (r == Err(StopFailed) ==> devices == managed && !(managed !! failed))
        && (r == Err(StatusFailed) ==> managed !! failed && !seen.reachable)
        && (r.Err? && r.error.NoDevice? && old(selected) != ""
            ==> store.db == old(store.db) && selected !in old(devices))
        && (r.Err? && r.error.NoDevice? && old(selected) == "" ==> managed !! failed && seen.found.Some?)
        && forall s :: Reservation(store.db, s) ==
             if r.Err? && r.error.NoDevice? && old(selected) != "" then Reservation(old(store.db), s)
             else if s in managed - seen.running then None
             else if r.Ok? && managed != {} && (old(selected) != "" || seen.found.Some?)
                     && Stopped(old(store.db), s, seen.running, seen.exited, seen.clock) then None
             else Reservation(old(store.db), s)
      ensures OnlyReleases(old(store.db), store.db, now)
    {
      hide IndependentPorts, Exhausted, TrySelect, TryAuthorize, TryDelete, Schema;
      NothingDone(store.db, now);
      if selected != "" {
        var device := Device(selected, seen.offers, seen.saved, seen.started);
        if device.Err? {
          return Err(NoDevice(device.error));
        }
      }
      ReleaseDown(seen.running, now);
      if !(devices !! failed) {
        return Err(StopFailed);
      }
      if devices == {} {
        return Ok(());
      }
      ghost var mid := store.db;
      r := Status(seen, now);
      ReleasesJoin(old(store.db), mid, store.db, now);
    }
  }

  ghost predicate Releases(ops: seq<Op>, now: int) {
    forall op :: op in ops ==> op.Release? && op.now == now
  }

  ghost predicate OnlyReleases(before: Tables, after: Tables, now: int) {
    exists ops :: Releases(ops, now) && after == Run(before, ops)
  }

  lemma NothingDone(db: Tables, now: int)
    ensures OnlyReleases(db, db, now)
  {
    assert Releases([], now) && db == Run(db, []);
  }

  lemma ReleasesJoin(before: Tables, mid: Tables, after: Tables, now: int)
    requires OnlyReleases(before, mid, now) && OnlyReleases(mid, after, now)
    ensures OnlyReleases(before, after, now)
  {
    var first :| Releases(first, now) && mid == Run(before, first);
    var second :| Releases(second, now) && after == Run(mid, second);
    RunsJoin(before, first, second);
    assert Releases(first + second, now);
  }

  lemma {:induction false} RunsJoin(db: Tables, first: seq<Op>, second: seq<Op>)
    ensures Run(db, first + second) == Run(Run(db, first), second)
    decreases |first|
  {
    hide Step;
    if first == [] {
      assert first + second == second;
    } else {
      assert (first + second)[1..] == first[1..] + second;
      RunsJoin(Step(db, first[0]), first[1..], second);
    }
  }

  lemma OneMore(db: Tables, ops: seq<Op>, op: Op)
    ensures Run(db, ops + [op]) == Step(Run(db, ops), op)
  {
    hide Step;
    RunsJoin(db, ops, [op]);
    assert [op][1..] == [];
  }

  /** With nothing committed in between, a failed launch restores every reservation unless the previous
      selection was inactive here and held by another emulator. */
  lemma UndisturbedRestore(db: Tables, selected: string, player: string, now: int)
    requires Schema(db) && TrySelect(db, selected, player, true, now).Ok?
    requires selected in db.profiles
    ensures Restorable(TrySelect(db, selected, player, true, now).value, selected, db.profiles[selected]) <==>
            db.profiles[selected].player.None? || db.profiles[selected].active
            || !ReservedElsewhere(db, db.profiles[selected].player.value, selected)
  {
    var next := TrySelect(db, selected, player, true, now).value;
    assert forall s, p :: s != selected ==> Holds(next, s, p) == Holds(db, s, p);
    var previous := db.profiles[selected];
    if previous.player.Some? {
      assert previous.active ==> Holds(db, selected, previous.player.value);
      if ReservedElsewhere(next, previous.player.value, selected) {
        var other :| other in next.profiles && other != selected && Holds(next, other, previous.player.value);
        assert Holds(db, other, previous.player.value);
      }
      if ReservedElsewhere(db, previous.player.value, selected) {
        var other :| other in db.profiles && other != selected && Holds(db, other, previous.player.value);
        assert Holds(next, other, previous.player.value);
      }
    }
  }
}
