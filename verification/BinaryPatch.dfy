/** The reversible patch of internal/binarypatch/patch.go over two files, a target and its backup. */
module BinaryPatch {
  import opened Wrappers
  import opened WeightedIndex

  type Bytes = seq<bv8>

  /** Hex fields are already decoded; `offset` is an int64. */
  datatype Manifest = Manifest(sourceHash: string, targetHash: string, offset: int, expected: Bytes, replacement: Bytes)

  datatype State = Original | Patched

  datatype Error = NoTarget | UnexpectedSource | OutsideTarget | ExpectedMismatch | ForeignBackup | BackupFailed
                 | PatchedMismatch | WriteFailed | NotPatched | NoBackup
                 | SliceOutOfRange  // a panic, not an error return

  /** What the file system does to one call. A target write either happens or does not. */
  datatype Fault = NoFault | BackupCreateFails | BackupWriteFails(written: nat) | TargetWriteFails

  datatype Files = Files(target: Option<Bytes>, backup: Option<Bytes>)

  /** What Validate asks of the span, and what the Go types do. */
  predicate ValidSpan(m: Manifest) {
    0 < |m.expected| == |m.replacement| < TWO63 && 0 <= m.offset < TWO63
  }

  predicate Matches(m: Manifest, data: Bytes)
    requires ValidSpan(m)
  {
    m.offset + |m.expected| <= |data| && data[m.offset..m.offset + |m.expected|] == m.expected
  }

  function PatchedBytes(m: Manifest, data: Bytes): (r: Bytes)
    requires ValidSpan(m) && m.offset + |m.expected| <= |data|
    ensures |r| == |data|
  {
    data[..m.offset] + m.replacement + data[m.offset + |m.replacement|..]
  }

  function Verified(m: Manifest, hash: Bytes -> string, target: Option<Bytes>): Result<State, Error>
    requires ValidSpan(m)
  {
    if target.None? then Err(NoTarget)
    else if hash(target.value) == m.targetHash then Ok(Patched)
    else if hash(target.value) != m.sourceHash then Err(UnexpectedSource)
    else if m.offset + |m.expected| >= TWO63 then Err(SliceOutOfRange)
    else if m.offset + |m.expected| > |target.value| then Err(OutsideTarget)
    else if !Matches(m, target.value) then Err(ExpectedMismatch)
    else Ok(Original)
  }

  function Prefix(data: Bytes, n: nat): Bytes {
    if n < |data| then data[..n] else data
  }

  /** The backup file after Apply has tried to provide one, and whether that worked. */
  function Backed(m: Manifest, hash: Bytes -> string, data: Bytes, backup: Option<Bytes>, fault: Fault)
    : (Option<Bytes>, Option<Error>)
  {
    if backup.Some? then (backup, if hash(backup.value) == m.sourceHash then None else Some(ForeignBackup))
    else match fault
      case BackupCreateFails => (None, Some(BackupFailed))
      case BackupWriteFails(n) => (Some(Prefix(data, n)), Some(BackupFailed))
      case _ => (Some(data), None)
  }

  function Applied(m: Manifest, hash: Bytes -> string, files: Files, fault: Fault): (Files, Result<State, Error>)
    requires ValidSpan(m)
  {
    var state := Verified(m, hash, files.target);
    if state.Err? || state.value == Patched then (files, state)
    else
      var data := files.target.value;
      var (backup, problem) := Backed(m, hash, data, files.backup, fault);
      var kept := files.(backup := backup);
      if problem.Some? then (kept, Err(problem.value))
      else if hash(PatchedBytes(m, data)) != m.targetHash then (kept, Err(PatchedMismatch))
      else if fault == TargetWriteFails then (kept, Err(WriteFailed))
      else (kept.(target := Some(PatchedBytes(m, data))), Ok(Patched))
  }

  function RolledBack(m: Manifest, hash: Bytes -> string, files: Files, fault: Fault): (Files, Option<Error>)
    requires ValidSpan(m)
  {
    var state := Verified(m, hash, files.target);
    if state.Err? then (files, Some(state.error))
    else if state.value != Patched then (files, Some(NotPatched))
    else if files.backup.None? then (files, Some(NoBackup))
    else if hash(files.backup.value) != m.sourceHash then (files, Some(ForeignBackup))
    else if fault == TargetWriteFails then (files, Some(WriteFailed))
    else (files.(target := files.backup), None)
  }

  class Disk {
    const hash: Bytes -> string
    var target: Option<Bytes>
    var backup: Option<Bytes>

    constructor (hash: Bytes -> string, target: Option<Bytes>, backup: Option<Bytes>)
      ensures this.hash == hash && Contents() == Files(target, backup)
    {
      this.hash, this.target, this.backup := hash, target, backup;
    }

    function Contents(): Files
      reads this
    {
      Files(target, backup)
    }

    /** Compares without stopping at the first difference. */
    method Equal(left: Bytes, right: Bytes) returns (same: bool)
      ensures same <==> left == right
    {
      if |left| != |right| {
        return false;
      }
      var different: bv8 := 0;
      for i := 0 to |left|
        invariant different == 0 <==> left[..i] == right[..i]
      {
        assert left[..i + 1] == left[..i] + [left[i]] && right[..i + 1] == right[..i] + [right[i]];
        Differences(different, left[i], right[i]);
        different := different | (left[i] ^ right[i]);
      }
      assert left[..|left|] == left && right[..|right|] == right;
      return different == 0;
    }

    static lemma Differences(different: bv8, x: bv8, y: bv8)
      ensures different | (x ^ y) == 0 <==> different == 0 && x == y
    {
    }

    method Verify(m: Manifest) returns (r: Result<State, Error>)
      requires ValidSpan(m)
      ensures r == Verified(m, hash, target)
    {
      if target.None? {
        return Err(NoTarget);
      }
      var data := target.value;
      if hash(data) == m.targetHash {
        return Ok(Patched);
      }
      if hash(data) != m.sourceHash {
        return Err(UnexpectedSource);
      }
      var end := Wrap64(m.offset + |m.expected|);
      if end > |data| {
        return Err(OutsideTarget);
      }
      if end < m.offset {
        return Err(SliceOutOfRange);
      }
      var same := Equal(data[m.offset..end], m.expected);
      if !same {
        return Err(ExpectedMismatch);
      }
      return Ok(Original);
    }

    method Apply(m: Manifest, fault: Fault) returns (r: Result<State, Error>)
      requires ValidSpan(m)
      modifies this
      ensures (Contents(), r) == Applied(m, hash, old(Contents()), fault)
    {
      var state := Verify(m);
      if state.Err? || state.value == Patched {
        return state;
      }
      var original := target.value;
      if backup.Some? {
        if hash(backup.value) != m.sourceHash {
          return Err(ForeignBackup);
        }
      } else if fault == BackupCreateFails {
        return Err(BackupFailed);
      } else if fault.BackupWriteFails? {
        backup := Some(Prefix(original, fault.written));
        return Err(BackupFailed);
      } else {
        backup := Some(original);
      }
      var data := new bv8[|original|](i requires 0 <= i < |original| => original[i]);
      for i := 0 to |m.replacement|
        invariant forall k :: 0 <= k < |original| ==>
                    data[k] == if m.offset <= k < m.offset + i then m.replacement[k - m.offset] else original[k]
        invariant backup == Backed(m, hash, original, old(backup), fault).0 && target == old(target)
      {
        data[m.offset + i] := m.replacement[i];
      }
      assert data[..] == PatchedBytes(m, original);
      if hash(data[..]) != m.targetHash {
        return Err(PatchedMismatch);
      }
      if fault == TargetWriteFails {
        return Err(WriteFailed);
      }
      target := Some(data[..]);
      return Ok(Patched);
    }

    method Rollback(m: Manifest, fault: Fault) returns (problem: Option<Error>)
      requires ValidSpan(m)
      modifies this
      ensures (Contents(), problem) == RolledBack(m, hash, old(Contents()), fault)
    {
      var state := Verify(m);
      if state.Err? {
        return Some(state.error);
      }
      if state.value != Patched {
        return Some(NotPatched);
      }
      if backup.None? {
        return Some(NoBackup);
      }
      if hash(backup.value) != m.sourceHash {
        return Some(ForeignBackup);
      }
      if fault == TargetWriteFails {
        return Some(WriteFailed);
      }
      target := backup;
      return None;
    }
  }

  /** Verifying panics on a file with the source hash if and only if the end of an accepted span wraps. */
  lemma PanicsExactly(m: Manifest, hash: Bytes -> string, data: Bytes)
    requires ValidSpan(m) && m.sourceHash != m.targetHash && hash(data) == m.sourceHash
    ensures Verified(m, hash, Some(data)) == Err(SliceOutOfRange) <==> m.offset + |m.expected| >= TWO63
    ensures Verified(m, hash, Some(data)) == Err(OutsideTarget) <==> |data| < m.offset + |m.expected| < TWO63
  {
  }

  // ---------------------------------------------------------------- runs

  datatype Op = Apply(fault: Fault) | Rollback(fault: Fault)

  function Step(m: Manifest, hash: Bytes -> string, files: Files, op: Op): Files
    requires ValidSpan(m)
  {
    match op
    case Apply(fault) => Applied(m, hash, files, fault).0
    case Rollback(fault) => RolledBack(m, hash, files, fault).0
  }

  function Run(m: Manifest, hash: Bytes -> string, files: Files, ops: seq<Op>): Files
    requires ValidSpan(m)
    decreases |ops|
  {
    if ops == [] then files else Run(m, hash, Step(m, hash, files, ops[0]), ops[1..])
  }

  /** The manifest pins these source bytes, which fit a Go slice: two different hashes, the first of which no other
      bytes have. */
  ghost predicate Pins(m: Manifest, hash: Bytes -> string, source: Bytes) {
    && ValidSpan(m) && m.sourceHash != m.targetHash && hash(source) == m.sourceHash && |source| < TWO63
    && forall other: Bytes :: hash(other) == m.sourceHash ==> other == source
  }

  /** The target holds the source or the patched bytes, and in the second case the backup holds the source. */
  ghost predicate Recoverable(m: Manifest, source: Bytes, files: Files)
    requires ValidSpan(m)
  {
    files.target == Some(source)
    || (Matches(m, source) && files.target == Some(PatchedBytes(m, source)) && files.backup == Some(source))
  }

  lemma StepStaysRecoverable(m: Manifest, hash: Bytes -> string, source: Bytes, files: Files, op: Op)
    requires Pins(m, hash, source) && Recoverable(m, source, files)
    ensures Recoverable(m, source, Step(m, hash, files, op))
    ensures files.backup.Some? ==> Step(m, hash, files, op).backup == files.backup
  {
  }

  /** No run of patches, rollbacks and file-system faults loses the source; a backup is never rewritten. */
  lemma {:induction false} AlwaysRecoverable(m: Manifest, hash: Bytes -> string, source: Bytes, files: Files,
      ops: seq<Op>)
    requires Pins(m, hash, source) && Recoverable(m, source, files)
    ensures Recoverable(m, source, Run(m, hash, files, ops))
    ensures files.backup.Some? ==> Run(m, hash, files, ops).backup == files.backup
    decreases |ops|
  {
    hide Recoverable;
    if ops != [] {
      StepStaysRecoverable(m, hash, source, files, ops[0]);
      AlwaysRecoverable(m, hash, source, Step(m, hash, files, ops[0]), ops[1..]);
    }
  }

  /** Outside the span of the manifest no byte ever differs from the source. */
  lemma OnlyTheSpanChanges(m: Manifest, hash: Bytes -> string, source: Bytes, files: Files, ops: seq<Op>, k: nat)
    requires Pins(m, hash, source) && Recoverable(m, source, files) && k < |source|
    ensures var target := Run(m, hash, files, ops).target;
      target.Some? && |target.value| == |source|
          && (k < m.offset || k >= m.offset + |m.expected| ==> target.value[k] == source[k])
  {
    AlwaysRecoverable(m, hash, source, files, ops);
  }

  /** When the patch takes on a source file and nothing fails: the manifest must fit, and the backup must be
      missing or complete. */
  lemma ApplySucceedsExactly(m: Manifest, hash: Bytes -> string, source: Bytes, backup: Option<Bytes>)
    requires Pins(m, hash, source)
    ensures Applied(m, hash, Files(Some(source), backup), NoFault).1 == Ok(Patched) <==>
            && Matches(m, source) && hash(PatchedBytes(m, source)) == m.targetHash
            && (backup.None? || backup == Some(source))
  {
  }

  /** A patch that takes writes exactly the replacement into the span, and the backup is the source from then on. */
  lemma ApplyWritesTheSpan(m: Manifest, hash: Bytes -> string, source: Bytes, backup: Option<Bytes>)
    requires Pins(m, hash, source)
    requires Applied(m, hash, Files(Some(source), backup), NoFault).1 == Ok(Patched)
    ensures var files := Applied(m, hash, Files(Some(source), backup), NoFault).0;
      && files.backup == Some(source) && files.target.Some? && |files.target.value| == |source|
      && forall k :: 0 <= k < |source| ==>
           files.target.value[k] == if m.offset <= k < m.offset + |m.replacement| then m.replacement[k - m.offset]
                                    else source[k]
  {
    ApplySucceedsExactly(m, hash, source, backup);
  }

  /** What a fault leaves of a source file without a backup: the target as it was, and as much of the backup as was
      written. */
  lemma FaultsKeepTheSource(m: Manifest, hash: Bytes -> string, source: Bytes, fault: Fault)
    requires Pins(m, hash, source) && Matches(m, source) && hash(PatchedBytes(m, source)) == m.targetHash
    requires fault != NoFault
    ensures var (files, r) := Applied(m, hash, Files(Some(source), None), fault);
      && files.target == Some(source) && r.Err?
      && (fault == BackupCreateFails ==> files.backup == None)
      && (fault == TargetWriteFails ==> files.backup == Some(source))
      && (fault.BackupWriteFails? ==>
            files.backup == Some(if fault.written < |source| then source[..fault.written] else source))
  {
  }

  /** A roll-back succeeds if and only if the target is the patched file and a whole backup of the source exists. */
  lemma RollbackSucceedsExactly(m: Manifest, hash: Bytes -> string, source: Bytes, files: Files)
    requires Pins(m, hash, source)
    ensures RolledBack(m, hash, files, NoFault).1 == None <==>
            files.target.Some? && hash(files.target.value) == m.targetHash && files.backup == Some(source)
    ensures var (next, problem) := RolledBack(m, hash, files, NoFault);
      next == if problem == None then Files(Some(source), Some(source)) else files
  {
  }

  /** Applying twice is applying once, and a rollback restores every byte. */
  lemma RollbackUndoesApply(m: Manifest, hash: Bytes -> string, source: Bytes, backup: Option<Bytes>)
    requires Pins(m, hash, source)
    requires Applied(m, hash, Files(Some(source), backup), NoFault).1.Ok?
    ensures var (patched, _) := Applied(m, hash, Files(Some(source), backup), NoFault);
      && Applied(m, hash, patched, NoFault) == (patched, Ok(Patched))
      && RolledBack(m, hash, patched, NoFault) == (Files(Some(source), Some(source)), None)
  {
  }

  /** A backup cut short by a write fault blocks the patch for good: the exclusive create never replaces it. */
  lemma {:induction false} ShortBackupBlocks(m: Manifest, hash: Bytes -> string, source: Bytes, short: Bytes,
      ops: seq<Op>)
    requires Pins(m, hash, source) && short != source
    ensures Run(m, hash, Files(Some(source), Some(short)), ops) == Files(Some(source), Some(short))
    decreases |ops|
  {
    if ops != [] {
      ShortBackupBlocks(m, hash, source, short, ops[1..]);
    }
  }
}
