/** src/util/file_io.cc: whole-file reads, and replacement that survives a
    crash at any point.

    The file system is a value with a volatile and a durable side.  What the
    environment does, system call by system call, is a schedule: short counts,
    EINTR, failures, and power loss, which also ends every schedule.  A claim
    about every schedule is therefore a claim about a crash between any two
    steps. */
module FileIo {
  import opened Wire
  import opened Memory

  type Name = string
  type Inode = nat

  /** What a file holds, and whether fsync has made exactly that durable. */
  datatype File = File(content: Bytes, synced: bool)

  /** One directory.  `past` holds every state of it that a crash may still
      bring back, for each name on its own: the directory is never fsynced. */
  datatype Fs = Fs(dir: map<Name, Inode>, files: seq<File>, past: seq<map<Name, Inode>>)

  predicate WellFormed(fs: Fs) {
    && (forall n | n in fs.dir :: fs.dir[n] < |fs.files|)
    && (forall d | d in fs.past :: forall n | n in d :: d[n] < |fs.files|)
  }

  function Bound(d: map<Name, Inode>, name: Name): Option<Inode> {
    if name in d then Some(d[name]) else None
  }

  /** What a reader finds under `name` now. */
  function Lookup(fs: Fs, name: Name): Option<Bytes>
    requires WellFormed(fs)
  {
    if name in fs.dir then Some(fs.files[fs.dir[name]].content) else None
  }

  /** What a reader may find under `name` after losing power in this state: any
      binding the name has had, and any bytes whatever if they were not synced. */
  ghost predicate MayResolveTo(fs: Fs, name: Name, found: Option<Bytes>)
    requires WellFormed(fs)
  {
    exists d :: d in fs.past + [fs.dir] && BindingYields(fs, d, name, found)
  }

  ghost predicate BindingYields(fs: Fs, d: map<Name, Inode>, name: Name, found: Option<Bytes>) {
    match Bound(d, name)
    case None => found == None
    case Some(i) => i < |fs.files| && found.Some? && (fs.files[i].synced ==> found.value == fs.files[i].content)
  }

  // ---- System calls, when they succeed ----

  function Create(fs: Fs, name: Name): Fs {
    var d := fs.dir[name := |fs.files|];
    Fs(d, fs.files + [File([], false)], fs.past + [fs.dir])
  }

  function Append(fs: Fs, i: Inode, bytes: Bytes): Fs
    requires i < |fs.files|
  {
    fs.(files := fs.files[i := File(fs.files[i].content + bytes, false)])
  }

  function Sync(fs: Fs, i: Inode): Fs
    requires i < |fs.files|
  {
    fs.(files := fs.files[i := fs.files[i].(synced := true)])
  }

  function Move(fs: Fs, from: Name, to: Name): Fs
    requires from in fs.dir
  {
    if from == to then fs
    else Fs((fs.dir - {from})[to := fs.dir[from]], fs.files, fs.past + [fs.dir])
  }

  function Remove(fs: Fs, name: Name): Fs {
    Fs(fs.dir - {name}, fs.files, fs.past + [fs.dir])
  }

  /** The portable filename characters, which mkstemp draws from. */
  predicate Portable(c: char) {
    'A' <= c <= 'Z' || 'a' <= c <= 'z' || '0' <= c <= '9' || c == '.' || c == '_' || c == '-'
  }

  /** The names mkstemp can come back with: the template filled in, and not taken. */
  predicate TemplateShaped(name: Name) {
    |name| == 19 && name[..13] == ".model-crypt-" && forall i | 13 <= i < 19 :: Portable(name[i])
  }

  predicate MkstempMayPick(fs: Fs, name: Name) {
    TemplateShaped(name) && name !in fs.dir
  }

  // ---- Atomic replacement ----

  /** The target reads all old or all new, and losing power shows nothing under
      it that could not have been found before, except all of the new. */
  ghost predicate Atomic(base: Fs, fs: Fs, target: Name, data: Bytes)
    requires WellFormed(base)
  {
    && WellFormed(fs)
    && (Lookup(fs, target) == Lookup(base, target) || Lookup(fs, target) == Some(data))
    && forall found | MayResolveTo(fs, target, found) :: MayResolveTo(base, target, found) || found == Some(data)
  }

  /** What the target holds is durable. */
  predicate Settled(fs: Fs, target: Name) {
    && WellFormed(fs)
    && fs.past == []
    && (target in fs.dir ==> fs.files[fs.dir[target]].synced)
  }

  /** From a durable target, atomic means: the old contents or the new, complete,
      now and after a crash. */
  lemma SettledMeansOldOrNew(base: Fs, fs: Fs, target: Name, data: Bytes)
    requires Settled(base, target) && Atomic(base, fs, target, data)
    ensures forall found | MayResolveTo(fs, target, found) :: found == Lookup(base, target) || found == Some(data)
  {
    forall found | MayResolveTo(base, target, found) ensures found == Lookup(base, target) {
      var d :| d in base.past + [base.dir] && BindingYields(base, d, target, found);
      assert d == base.dir;
    }
  }

  ghost predicate WasBoundTo(fs: Fs, target: Name, binding: Option<Inode>) {
    exists d :: d in fs.past + [fs.dir] && Bound(d, target) == binding
  }

  /** Every binding the target may come back with is one it had before, or the
      new file and that is complete and synced. */
  ghost predicate OldOrFinished(base: Fs, fs: Fs, target: Name, data: Bytes) {
    var i := |base.files|;
    && WellFormed(fs)
    && |fs.files| >= i && fs.files[..i] == base.files
    && (Bound(fs.dir, target) == Bound(base.dir, target) || IsFinished(fs, i, Bound(fs.dir, target), data))
    && forall d | d in fs.past + [fs.dir] ::
         WasBoundTo(base, target, Bound(d, target)) || IsFinished(fs, i, Bound(d, target), data)
  }

  ghost predicate IsFinished(fs: Fs, i: Inode, binding: Option<Inode>, data: Bytes) {
    binding == Some(i) && i < |fs.files| && fs.files[i] == File(data, true)
  }

  lemma OldOrFinishedIsAtomic(base: Fs, fs: Fs, target: Name, data: Bytes)
    requires WellFormed(base) && OldOrFinished(base, fs, target, data)
    ensures Atomic(base, fs, target, data)
  {
    assert forall k | 0 <= k < |base.files| :: fs.files[k] == base.files[k];
    forall found | MayResolveTo(fs, target, found) ensures MayResolveTo(base, target, found) || found == Some(data) {
      var d :| d in fs.past + [fs.dir] && BindingYields(fs, d, target, found);
      if WasBoundTo(base, target, Bound(d, target)) {
        var d0 :| d0 in base.past + [base.dir] && Bound(d0, target) == Bound(d, target);
        assert target in d0 ==> d0[target] < |base.files|;
        assert BindingYields(base, d0, target, found);
      }
    }
  }

  /** Creating the temporary keeps the target atomic, whatever name mkstemp
      picks, exactly when it cannot pick the target itself: the target exists,
      or is not a name the template can produce. */
  lemma MkstempKeepsAtomicIff(base: Fs, target: Name, data: Bytes)
    requires Settled(base, target)
    ensures (forall name | MkstempMayPick(base, name) :: Atomic(base, Create(base, name), target, data))
       <==> TargetIsSafe(base, target)
  {
    forall name | MkstempMayPick(base, name) && name != target ensures Atomic(base, Create(base, name), target, data) {
      BuildingIsOldOrFinished(base, Create(base, name), name, target, data);
      OldOrFinishedIsAtomic(base, Create(base, name), target, data);
    }
    if !TargetIsSafe(base, target) {
      CollisionTears(base, target, data);
      assert MkstempMayPick(base, target);
    }
  }

  /** The target cannot be mistaken for the temporary. */
  predicate TargetIsSafe(fs: Fs, target: Name) {
    target in fs.dir || !TemplateShaped(target)
  }

  /** If mkstemp picks the target, a crash right after it can leave anything there. */
  lemma CollisionTears(base: Fs, target: Name, data: Bytes)
    requires Settled(base, target) && target !in base.dir
    ensures !Atomic(base, Create(base, target), target, data)
  {
    var fs := Create(base, target);
    var garbage := data + [0];
    assert fs.dir in fs.past + [fs.dir] && BindingYields(fs, fs.dir, target, Some(garbage));
    assert MayResolveTo(fs, target, Some(garbage));
    if Atomic(base, fs, target, data) {
      SettledMeansOldOrNew(base, fs, target, data);
    }
  }

  /** One target that mkstemp can pick: in an empty directory the temporary is
      created under the target's own name, and a crash can leave anything there. */
  lemma CollidingTarget()
    ensures var base, target := Fs(map[], [], []), ".model-crypt-AAAAAA";
      && Settled(base, target) && MkstempMayPick(base, target) && !TargetIsSafe(base, target)
      && forall data :: !Atomic(base, Create(base, target), target, data)
  {
    var base, target := Fs(map[], [], []), ".model-crypt-AAAAAA";
    forall data ensures !Atomic(base, Create(base, target), target, data) {
      CollisionTears(base, target, data);
    }
  }

  // ---- The calls of one process, against a schedule ----

  datatype Outcome =
    | Transferred(count: nat)  // success; for read and write, at most this many bytes
    | Picked(name: Name)       // mkstemp succeeded with this name
    | Interrupted              // EINTR
    | Failed

  /** The name mkstemp comes back with when it is the first call on this schedule. */
  function FirstPick(fs: Fs, schedule: seq<Outcome>): Option<Name> {
    if schedule != [] && schedule[0].Picked? && MkstempMayPick(fs, schedule[0].name) then Some(schedule[0].name) else None
  }

  /** A target is safe exactly when no schedule makes mkstemp pick it. */
  lemma SafeExactlyWhenNeverPicked(fs: Fs, target: Name)
    ensures TargetIsSafe(fs, target) <==> forall schedule :: FirstPick(fs, schedule) != Some(target)
  {
    if !TargetIsSafe(fs, target) {
      assert FirstPick(fs, [Picked(target)]) == Some(target);
    }
  }

  datatype Reply = Done(count: nat) | Refused(interrupted: bool) | PowerLoss

  /** The calls as the process makes them. */
  datatype Call = MKSTEMP | FCHMOD(mode: nat) | WRITE | FSYNC | CLOSE | RENAME | UNLINK | OPEN | FSTAT | READ

  class FileSystem {
    var fs: Fs
    var schedule: seq<Outcome>
    ghost var seen: seq<Fs>        // every state since the call began, the present one last
    ghost var refused: bool        // some call failed, EINTR aside, or a read came to an early end
    ghost var unlinkRefused: bool
    ghost var calls: seq<Call>

    constructor (fs: Fs, schedule: seq<Outcome>)
      ensures this.fs == fs && this.schedule == schedule && seen == [fs] && !refused && !unlinkRefused && calls == []
    {
      this.fs, this.schedule, seen, refused, unlinkRefused, calls := fs, schedule, [fs], false, false, [];
    }

    /** What the environment does next; nothing more once power is lost. */
    method Next() returns (o: Option<Outcome>)
      modifies this`schedule
      ensures o.None? ==> schedule == [] == old(schedule)
      ensures o.Some? ==> old(schedule) == [o.value] + schedule
    {
      if schedule == [] {
        return None;
      }
      o := Some(schedule[0]);
      schedule := schedule[1..];
    }

    method Mkstemp() returns (r: Reply, name: Name)
      modifies this`refused, this`fs, this`schedule, this`seen, this`calls
      ensures r.Done? ==> MkstempMayPick(old(fs), name) && fs == Create(old(fs), name)
      ensures FirstPick(old(fs), old(schedule)) == if r.Done? then Some(name) else None
      ensures !r.Done? ==> fs == old(fs)
      ensures seen == old(seen) + [fs]
      ensures refused == (old(refused) || r.Refused?)
      ensures r.PowerLoss? ==> schedule == []
      ensures calls == old(calls) + [MKSTEMP]
    {
      calls := calls + [MKSTEMP];
      name := "";
      var o := Next();
      match o {
        case None =>
          r := PowerLoss;
        case Some(Picked(picked)) =>
          name := picked;
          if MkstempMayPick(fs, name) {
            fs := Create(fs, name);
            r := Done(0);
          } else {
            r := Refused(false);
          }
        case Some(_) =>
          r := Refused(false);
      }
      refused := refused || r.Refused?;
      seen := seen + [fs];
    }

    /** fchmod, close, open and fstat: no effect on the directory or on contents. */
    method Quiet(call: Call) returns (r: Reply)
      modifies this`refused, this`schedule, this`seen, this`calls
      ensures seen == old(seen) + [fs]
      ensures refused == (old(refused) || r.Refused?)
      ensures r.PowerLoss? ==> schedule == []
      ensures calls == old(calls) + [call]
    {
      calls := calls + [call];
      var o := Next();
      r := match o
        case None => PowerLoss
        case Some(Transferred(_)) => Done(0)
        case Some(_) => Refused(false);
      refused := refused || r.Refused?;
      seen := seen + [fs];
    }

    /** A close whose result nobody looks at: true when power is lost on the way. */
    method CloseUnchecked() returns (lost: bool)
      modifies this`schedule, this`calls
      ensures lost ==> schedule == []
      ensures calls == old(calls) + [CLOSE]
    {
      calls := calls + [CLOSE];
      var o := Next();
      lost := o == None;
    }

    /** write: appends some prefix of the bytes offered. */
    method Write(i: Inode, bytes: Bytes) returns (r: Reply)
      requires i < |fs.files|
      modifies this`refused, this`fs, this`schedule, this`seen, this`calls
      ensures r.Done? ==> r.count <= |bytes| && fs == Append(old(fs), i, bytes[..r.count])
      ensures !r.Done? ==> fs == old(fs)
      ensures !r.PowerLoss? ==> |schedule| < |old(schedule)|
      ensures seen == old(seen) + [fs]
      ensures refused == (old(refused) || (r.Refused? && !r.interrupted))
      ensures r.PowerLoss? ==> schedule == []
      ensures calls == old(calls) + [WRITE]
    {
      calls := calls + [WRITE];
      var o := Next();
      match o {
        case None =>
          r := PowerLoss;
        case Some(Transferred(n)) =>
          r := Done(if n < |bytes| then n else |bytes|);
          fs := Append(fs, i, bytes[..r.count]);
        case Some(Interrupted) =>
          r := Refused(true);
        case Some(_) =>
          r := Refused(false);
      }
      refused := refused || (r.Refused? && !r.interrupted);
      seen := seen + [fs];
    }

    method Fsync(i: Inode) returns (r: Reply)
      requires i < |fs.files|
      modifies this`refused, this`fs, this`schedule, this`seen, this`calls
      ensures fs == if r.Done? then Sync(old(fs), i) else old(fs)
      ensures seen == old(seen) + [fs]
      ensures refused == (old(refused) || r.Refused?)
      ensures r.PowerLoss? ==> schedule == []
      ensures calls == old(calls) + [FSYNC]
    {
      calls := calls + [FSYNC];
      var o := Next();
      match o {
        case None =>
          r := PowerLoss;
        case Some(Transferred(_)) =>
          r := Done(0);
          fs := Sync(fs, i);
        case Some(_) =>
          r := Refused(false);
      }
      refused := refused || r.Refused?;
      seen := seen + [fs];
    }

    method Rename(from: Name, to: Name) returns (r: Reply)
      requires from in fs.dir
      modifies this`refused, this`fs, this`schedule, this`seen, this`calls
      ensures fs == if r.Done? then Move(old(fs), from, to) else old(fs)
      ensures seen == old(seen) + [fs]
      ensures refused == (old(refused) || r.Refused?)
      ensures r.PowerLoss? ==> schedule == []
      ensures calls == old(calls) + [RENAME]
    {
      calls := calls + [RENAME];
      var o := Next();
      match o {
        case None =>
          r := PowerLoss;
        case Some(Transferred(_)) =>
          r := Done(0);
          fs := Move(fs, from, to);
        case Some(_) =>
          r := Refused(false);
      }
      refused := refused || r.Refused?;
      seen := seen + [fs];
    }

    method Unlink(name: Name) returns (r: Reply)
      modifies this`refused, this`fs, this`schedule, this`seen, this`calls, this`unlinkRefused
      ensures fs == if r.Done? then Remove(old(fs), name) else old(fs)
      ensures unlinkRefused == (old(unlinkRefused) || r.Refused?)
      ensures seen == old(seen) + [fs]
      ensures refused == (old(refused) || r.Refused?)
      ensures r.PowerLoss? ==> schedule == []
      ensures calls == old(calls) + [UNLINK]
    {
      calls := calls + [UNLINK];
      var o := Next();
      match o {
        case None =>
          r := PowerLoss;
        case Some(Transferred(_)) =>
          r := Done(0);
          fs := Remove(fs, name);
        case Some(_) =>
          r := Refused(false);
          unlinkRefused := true;
      }
      refused := refused || r.Refused?;
      seen := seen + [fs];
    }

    /** read at the current position of the descriptor. */
    method Read(i: Inode, at: nat, size: nat) returns (r: Reply, bytes: Bytes)
      requires i < |fs.files| && at <= |fs.files[i].content|
      modifies this`refused, this`schedule, this`calls
      ensures r.Done? ==> r.count == |bytes| && bytes <= fs.files[i].content[at..] && |bytes| <= size
      ensures !r.PowerLoss? ==> |schedule| < |old(schedule)|
      ensures refused == (old(refused) || (r.Refused? && !r.interrupted) || (r.Done? && r.count == 0))
      ensures r.PowerLoss? ==> schedule == []
      ensures calls == old(calls) + [READ]
    {
      calls := calls + [READ];
      bytes := [];
      var o := Next();
      match o {
        case None =>
          r := PowerLoss;
        case Some(Transferred(n)) =>
          var rest := fs.files[i].content[at..];
          var most := if |rest| < size then |rest| else size;
          bytes := rest[..if n < most then n else most];
          r := Done(|bytes|);
        case Some(Interrupted) =>
          r := Refused(true);
        case Some(_) =>
          r := Refused(false);
      }
      refused := refused || (r.Refused? && !r.interrupted) || (r.Done? && r.count == 0);
    }
  }

  /** While the temporary is being filled: one new file under one new name,
      everything else as it was. */
  ghost predicate Building(base: Fs, fs: Fs, tmp: Name) {
    && tmp !in base.dir
    && fs.dir == base.dir[tmp := |base.files|]
    && |fs.files| == |base.files| + 1 && fs.files[..|base.files|] == base.files
    && fs.past == base.past + [base.dir]
  }

  lemma BuildingIsOldOrFinished(base: Fs, fs: Fs, tmp: Name, target: Name, data: Bytes)
    requires WellFormed(base) && Building(base, fs, tmp) && tmp != target
    ensures OldOrFinished(base, fs, target, data)
  {
    OldBindings(base, target);
    assert base.dir in base.past + [base.dir];
    assert WasBoundTo(base, target, Bound(base.dir, target));
    assert Bound(fs.dir, target) == Bound(base.dir, target);
  }

  lemma OldBindings(base: Fs, target: Name)
    ensures forall d | d in base.past + [base.dir] :: WasBoundTo(base, target, Bound(d, target))
  {
  }

  ghost function Writes(n: nat): seq<Call> {
    seq(n, _ => WRITE)
  }

  /** WriteFully: short counts and EINTR are retried from where they left off. */
  method WriteFully(sys: FileSystem, ghost base: Fs, ghost tmp: Name, i: Inode, data: Bytes) returns (r: Reply, ghost n: nat)
    requires Building(base, sys.fs, tmp) && i == |base.files| && sys.fs.files[i].content == []
    requires |sys.seen| > 0 && sys.seen[|sys.seen| - 1] == sys.fs
    modifies sys`refused, sys`fs, sys`schedule, sys`seen, sys`calls
    ensures Building(base, sys.fs, tmp) && old(sys.seen) <= sys.seen
    ensures |sys.seen| > 0 && sys.seen[|sys.seen| - 1] == sys.fs
    ensures forall st | st in sys.seen[|old(sys.seen)|..] :: Building(base, st, tmp)
    ensures r.Done? ==> sys.fs.files[i].content == data
    ensures (r.Refused? || old(sys.refused) ==> sys.refused) && (r.PowerLoss? ==> sys.schedule == [])
    ensures r.Done? ==> sys.refused == old(sys.refused)
    ensures sys.calls == old(sys.calls) + Writes(n) && (r.Done? && data != [] ==> n > 0)
  {
    n := 0;
    var done: nat := 0;
    while done < |data|
      invariant done <= |data|
      invariant Building(base, sys.fs, tmp) && old(sys.seen) <= sys.seen
      invariant forall st | st in sys.seen[|old(sys.seen)|..] :: Building(base, st, tmp)
      invariant |sys.seen| > 0 && sys.seen[|sys.seen| - 1] == sys.fs
      invariant sys.fs.files[i].content == data[..done]
      invariant sys.refused == old(sys.refused)
      invariant sys.calls == old(sys.calls) + Writes(n) && (done > 0 ==> n > 0)
      decreases |sys.schedule|
    {
      ghost var before := sys.seen;
      r := sys.Write(i, data[done..]);
      n := n + 1;
      assert sys.seen[|old(sys.seen)|..] == before[|old(sys.seen)|..] + [sys.fs];
      if r.PowerLoss? {
        return;
      }
      if r.Refused? {
        if r.interrupted {
          continue;
        }
        return;
      }
      assert data[..done] + data[done..][..r.count] == data[..done + r.count];
      done := done + r.count;
    }
    r := Done(0);
  }

  lemma SyncKeepsBuilding(base: Fs, fs: Fs, tmp: Name)
    requires Building(base, fs, tmp)
    ensures |base.files| < |fs.files| && Building(base, Sync(fs, |base.files|), tmp)
  {
  }

  /** fchmod, and write when there is something to write. */
  method WriteTemporary(sys: FileSystem, ghost base: Fs, ghost tmp: Name, i: Inode, data: Bytes, mode: nat)
    returns (r: Reply, ghost n: nat)
    requires Building(base, sys.fs, tmp) && i == |base.files| && sys.fs.files[i].content == []
    modifies sys`refused, sys`fs, sys`schedule, sys`seen, sys`calls
    ensures Building(base, sys.fs, tmp) && old(sys.seen) <= sys.seen
    ensures |sys.seen| > 0 && sys.seen[|sys.seen| - 1] == sys.fs
    ensures forall st | st in sys.seen[|old(sys.seen)|..] :: Building(base, st, tmp)
    ensures r.Done? ==> sys.fs.files[i].content == data
    ensures (r.Refused? || old(sys.refused) ==> sys.refused) && (r.PowerLoss? ==> sys.schedule == [])
    ensures r.Done? ==> sys.refused == old(sys.refused)
    ensures sys.calls == old(sys.calls) + [FCHMOD(mode)] + Writes(n) && (r.Done? ==> (n > 0 <==> data != []))
  {
    ghost var s0 := sys.seen;
    r := sys.Quiet(FCHMOD(mode));
    ghost var s1 := sys.seen;
    n := 0;
    if r.Done? && |data| > 0 {
      r, n := WriteFully(sys, base, tmp, i, data);
    }
    SeenMore(s0, s1, sys.seen, base, tmp);
  }

  /** Fill, sync and close the temporary: success means that every call succeeded. */
  method FillTemporary(sys: FileSystem, ghost base: Fs, ghost tmp: Name, i: Inode, data: Bytes, mode: nat)
    returns (r: Reply, ghost n: nat)
    requires Building(base, sys.fs, tmp) && i == |base.files| && sys.fs.files[i].content == []
    modifies sys`refused, sys`fs, sys`schedule, sys`seen, sys`calls
    ensures Building(base, sys.fs, tmp) && old(sys.seen) <= sys.seen
    ensures |sys.seen| > 0 && sys.seen[|sys.seen| - 1] == sys.fs
    ensures forall st | st in sys.seen[|old(sys.seen)|..] :: Building(base, st, tmp)
    ensures r.Done? ==> sys.fs.files[i] == File(data, true)
    ensures (r.Refused? || old(sys.refused) ==> sys.refused) && (r.PowerLoss? ==> sys.schedule == [])
    ensures r.Done? ==> sys.refused == old(sys.refused)
    ensures r.Done? ==>
      sys.calls == old(sys.calls) + [FCHMOD(mode)] + Writes(n) + [FSYNC, CLOSE] && (n > 0 <==> data != [])
    ensures old(sys.calls) <= sys.calls
    ensures r.Refused? ==> |sys.calls| > |old(sys.calls)| && sys.calls[|sys.calls| - 1] == CLOSE
  {
    SyncKeepsBuilding(base, sys.fs, tmp);
    hide Building, Writes;
    ghost var s0 := sys.seen;
    r, n := WriteTemporary(sys, base, tmp, i, data, mode);
    ghost var s2 := sys.seen;
    SyncKeepsBuilding(base, sys.fs, tmp);
    if r.Done? {
      r := sys.Fsync(i);
    }
    ghost var s3 := sys.seen;
    SeenMore(s0, s2, s3, base, tmp);
    if r.PowerLoss? {
      return;
    }
    var closed := sys.Quiet(CLOSE);  // on every path; its result matters only after success
    SeenMore(s0, s3, sys.seen, base, tmp);
    if r.Done? || closed.PowerLoss? {
      r := closed;
    }
  }

  lemma SeenMore(s0: seq<Fs>, s1: seq<Fs>, s2: seq<Fs>, base: Fs, tmp: Name)
    requires s0 <= s1 <= s2
    requires forall st | st in s1[|s0|..] :: Building(base, st, tmp)
    requires forall st | st in s2[|s1|..] :: Building(base, st, tmp)
    ensures forall st | st in s2[|s0|..] :: Building(base, st, tmp)
  {
    assert s2[|s0|..] == s1[|s0|..] + s2[|s1|..];
  }

  lemma CreateBuilds(base: Fs, tmp: Name)
    requires WellFormed(base) && tmp !in base.dir
    ensures var fs := Create(base, tmp);
      Building(base, fs, tmp) && |fs.files| == |base.files| + 1 && fs.files[|base.files|].content == []
  {
  }

  /** Renaming a finished temporary over the target finishes the replacement. */
  lemma MoveFinishes(base: Fs, fs: Fs, tmp: Name, target: Name, data: Bytes)
    requires WellFormed(base) && Building(base, fs, tmp)
    requires fs.files[|base.files|] == File(data, true)
    ensures tmp in fs.dir
    ensures var done := Move(fs, tmp, target);
      && done.dir == base.dir[target := |base.files|]
      && WellFormed(done) && Lookup(done, target) == Some(data)
      && OldOrFinished(base, done, target, data)
  {
    OldBindings(base, target);
    assert (base.dir[tmp := |base.files|] - {tmp})[target := |base.files|] == base.dir[target := |base.files|];
  }

  /** Taking the temporary away again leaves the directory as it was. */
  lemma RemoveUndoes(base: Fs, fs: Fs, tmp: Name, target: Name, data: Bytes)
    requires WellFormed(base) && Building(base, fs, tmp)
    ensures Remove(fs, tmp).dir == base.dir
    ensures tmp != target ==> OldOrFinished(base, Remove(fs, tmp), target, data)
  {
    OldBindings(base, target);
    assert base.dir in base.past + [base.dir];
    assert base.dir[tmp := |base.files|] - {tmp} == base.dir;
  }

  /** The cleanup after a failure: the name goes, if unlink lets it. */
  method Abandon(sys: FileSystem, ghost base: Fs, tmp: Name, ghost target: Name, ghost data: Bytes) returns (rc: Option<Status>)
    requires WellFormed(base) && Building(base, sys.fs, tmp)
    modifies sys`refused, sys`fs, sys`schedule, sys`seen, sys`calls, sys`unlinkRefused
    ensures rc == None || rc == Some(IO)
    ensures (old(sys.refused) ==> sys.refused) && (rc == None ==> sys.schedule == [])
    ensures sys.fs.dir == base.dir || sys.fs.dir == base.dir[tmp := |base.files|]
    ensures rc == Some(IO) ==> sys.fs.dir == base.dir || sys.unlinkRefused
    ensures |sys.fs.files| > |base.files| && sys.fs.files[..|base.files|] == base.files
    ensures sys.seen == old(sys.seen) + [sys.fs] && (tmp != target ==> OldOrFinished(base, sys.fs, target, data))
    ensures sys.calls == old(sys.calls) + [UNLINK]
  {
    RemoveUndoes(base, sys.fs, tmp, target, data);
    if tmp != target {
      BuildingIsOldOrFinished(base, sys.fs, tmp, target, data);
    }
    var r := sys.Unlink(tmp);
    return if r.PowerLoss? then None else Some(IO);
  }

  /** WriteFileAtomically, to the end of the schedule: None means power was lost
      on the way.  Every state passed through, the last included, keeps the
      target atomic across a crash unless mkstemp picked the target itself; and
      if it did, from a durable target, one of them does not. */
  method WriteFileAtomically(sys: FileSystem, target: Name, data: Bytes, mode: nat) returns (rc: Option<Status>)
    requires WellFormed(sys.fs) && !sys.unlinkRefused
    modifies sys
    ensures rc == None || rc == Some(OK) || rc == Some(IO)
    ensures rc == None ==> sys.schedule == []
    ensures rc != None && !old(sys.refused) ==> (rc == Some(IO) <==> sys.refused)
    ensures rc == Some(IO) ==> sys.refused
    ensures rc != None ==> Trail(sys.calls, old(sys.calls), rc.value, data, mode)
    ensures |sys.seen| > 0 && sys.seen[|sys.seen| - 1] == sys.fs
    ensures FirstPick(old(sys.fs), old(sys.schedule)) != Some(target) ==> AtomicThroughout(old(sys.fs), sys.seen, target, data)
    ensures Settled(old(sys.fs), target) ==>
      (AtomicThroughout(old(sys.fs), sys.seen, target, data) <==> FirstPick(old(sys.fs), old(sys.schedule)) != Some(target))
    ensures TargetIsSafe(old(sys.fs), target) ==> AtomicThroughout(old(sys.fs), sys.seen, target, data)
    ensures rc == Some(OK) ==>
      && WellFormed(sys.fs) && Lookup(sys.fs, target) == Some(data)
      && sys.fs.dir == old(sys.fs).dir[target := |old(sys.fs).files|]
    ensures rc == Some(IO) ==> sys.fs.dir == old(sys.fs).dir || sys.unlinkRefused
    ensures rc == Some(IO) && TargetIsSafe(old(sys.fs), target) ==>
      WellFormed(sys.fs) && Lookup(sys.fs, target) == Lookup(old(sys.fs), target)
  {
    hide Atomic, AtomicThroughout, OldOrFinished, TemplateShaped, Settled, Writes;
    ghost var base, earlier := sys.fs, sys.calls;
    sys.seen := [sys.fs];
    var r, tmp := sys.Mkstemp();
    if !r.Done? {
      NothingDone(base, target, data);
      assert sys.seen == [base, base] && sys.calls == earlier + [MKSTEMP];
      return if r.PowerLoss? then None else Some(IO);
    }
    ghost var ending;
    rc, ending := ReplaceWith(sys, base, earlier, tmp, target, data, mode);
    ReplacementIsAtomic(base, sys.seen, ending, tmp, target, data);
  }

  /** The calls of a replacement that came to an end.  Success: create, set the
      mode, write if there is anything to write, sync, close, rename, in this
      order.  Failure: nothing was created, or the descriptor was closed and the
      last thing done was to take the name away. */
  ghost predicate Trail(calls: seq<Call>, earlier: seq<Call>, rc: Status, data: Bytes, mode: nat) {
    if rc == OK then
      exists n: nat :: (n > 0 <==> data != [])
        && calls == earlier + [MKSTEMP, FCHMOD(mode)] + Writes(n) + [FSYNC, CLOSE, RENAME]
    else
      || calls == earlier + [MKSTEMP]
      || (earlier + [MKSTEMP] <= calls && CLOSE in calls[|earlier|..] && calls[|calls| - 1] == UNLINK)
  }

  lemma TrailOfFailure(filling: seq<Call>, after: seq<Call>, earlier: seq<Call>, data: Bytes, mode: nat)
    requires earlier + [MKSTEMP] <= filling && |filling| > |earlier| + 1 && filling[|filling| - 1] == CLOSE
    ensures Trail(filling + after + [UNLINK], earlier, IO, data, mode)
  {
    var calls := filling + after + [UNLINK];
    assert calls[|earlier|..][|filling| - 1 - |earlier|] == CLOSE;
  }

  lemma TrailOfSuccess(calls: seq<Call>, earlier: seq<Call>, n: nat, data: Bytes, mode: nat)
    requires n > 0 <==> data != []
    requires calls == earlier + [MKSTEMP] + [FCHMOD(mode)] + Writes(n) + [FSYNC, CLOSE] + [RENAME]
    ensures Trail(calls, earlier, OK, data, mode)
  {
    assert earlier + [MKSTEMP] + [FCHMOD(mode)] == earlier + [MKSTEMP, FCHMOD(mode)];
    assert calls == earlier + [MKSTEMP, FCHMOD(mode)] + Writes(n) + [FSYNC, CLOSE, RENAME];
  }

  /** Every state keeps the target atomic. */
  ghost predicate AtomicThroughout(base: Fs, states: seq<Fs>, target: Name, data: Bytes)
    requires WellFormed(base)
  {
    forall st | st in states :: Atomic(base, st, target, data)
  }

  lemma NothingDone(base: Fs, target: Name, data: Bytes)
    requires WellFormed(base)
    ensures AtomicThroughout(base, [base, base], target, data)
  {
    OldBindings(base, target);
    assert base.dir in base.past + [base.dir];
    OldOrFinishedIsAtomic(base, base, target, data);
  }

  /** The states of a replacement: before, while the temporary is filled, and at the end. */
  ghost predicate Replacing(base: Fs, states: seq<Fs>, ending: nat, tmp: Name, target: Name, data: Bytes) {
    && 2 <= ending <= |states|
    && states[0] == base && states[1] == Create(base, tmp)
    && (forall st | st in states[1..ending] :: Building(base, st, tmp))
    && (tmp != target ==> forall st | st in states[ending..] :: OldOrFinished(base, st, target, data))
  }

  /** The rename, and the cleanup if it fails. */
  method Install(sys: FileSystem, ghost base: Fs, tmp: Name, target: Name, ghost data: Bytes)
    returns (rc: Option<Status>, ghost ending: seq<Fs>)
    requires WellFormed(base) && Building(base, sys.fs, tmp) && sys.fs.files[|base.files|] == File(data, true)
    modifies sys
    ensures rc == None || rc == Some(OK) || rc == Some(IO)
    ensures (rc == None ==> sys.schedule == []) && (rc == Some(IO) ==> sys.refused)
    ensures rc == Some(OK) ==> sys.refused == old(sys.refused)
    ensures sys.seen == old(sys.seen) + ending && ending != [] && ending[|ending| - 1] == sys.fs
    ensures tmp != target ==> forall st | st in ending :: OldOrFinished(base, st, target, data)
    ensures rc != None ==> sys.calls == old(sys.calls) + if rc == Some(OK) then [RENAME] else [RENAME] + [UNLINK]
    ensures rc == Some(OK) ==>
      WellFormed(sys.fs) && Lookup(sys.fs, target) == Some(data) && sys.fs.dir == base.dir[target := |base.files|]
    ensures rc == Some(IO) ==> sys.fs.dir == base.dir || sys.unlinkRefused
    ensures rc == Some(IO) && tmp != target ==> WellFormed(sys.fs) && Lookup(sys.fs, target) == Lookup(base, target)
  {
    MoveFinishes(base, sys.fs, tmp, target, data);
    if tmp != target {
      BuildingIsOldOrFinished(base, sys.fs, tmp, target, data);
    }
    hide OldOrFinished, Building;
    var r := sys.Rename(tmp, target);
    ending := [sys.fs];
    if r.Refused? {
      rc := Abandon(sys, base, tmp, target, data);
      ending := ending + [sys.fs];
      return;
    }
    return if r.PowerLoss? then None else Some(OK), ending;
  }

  /** What happens once mkstemp has made the temporary. */
  method ReplaceWith(sys: FileSystem, ghost base: Fs, ghost earlier: seq<Call>, tmp: Name, target: Name, data: Bytes, mode: nat)
    returns (rc: Option<Status>, ghost ending: nat)
    requires WellFormed(base) && tmp !in base.dir && sys.fs == Create(base, tmp) && sys.seen == [base, sys.fs]
    requires !sys.unlinkRefused && sys.calls == earlier + [MKSTEMP]
    modifies sys
    ensures rc == None || rc == Some(OK) || rc == Some(IO)
    ensures (rc == None ==> sys.schedule == []) && (rc == Some(IO) ==> sys.refused)
    ensures rc == Some(OK) ==> sys.refused == old(sys.refused)
    ensures rc != None ==> Trail(sys.calls, earlier, rc.value, data, mode)
    ensures |sys.seen| > 0 && sys.seen[|sys.seen| - 1] == sys.fs
    ensures Replacing(base, sys.seen, ending, tmp, target, data)
    ensures rc == Some(OK) ==>
      WellFormed(sys.fs) && Lookup(sys.fs, target) == Some(data) && sys.fs.dir == base.dir[target := |base.files|]
    ensures rc == Some(IO) ==> sys.fs.dir == base.dir || sys.unlinkRefused
    ensures rc == Some(IO) && tmp != target ==> WellFormed(sys.fs) && Lookup(sys.fs, target) == Lookup(base, target)
  {
    CreateBuilds(base, tmp);
    hide Writes, Trail, OldOrFinished, Building, Replacing;
    var i := |sys.fs.files| - 1;
    var r;
    ghost var n;
    r, n := FillTemporary(sys, base, tmp, i, data, mode);
    ghost var filled, filling := sys.seen, sys.calls;
    ending := |filled|;
    ghost var last := [];
    if r.PowerLoss? {
      rc := None;
    } else if r.Refused? {
      rc := Abandon(sys, base, tmp, target, data);
      last := [sys.fs];
      TrailOfFailure(filling, [], earlier, data, mode);
      assert filling + [] == filling;
    } else {
      rc, last := Install(sys, base, tmp, target, data);
      if rc == Some(IO) {
        TrailOfFailure(filling, [RENAME], earlier, data, mode);
        assert filling + [RENAME] + [UNLINK] == filling + ([RENAME] + [UNLINK]);
      } else if rc == Some(OK) {
        TrailOfSuccess(sys.calls, earlier, n, data, mode);
      }
    }
    StatesOf(base, filled, last, tmp, target, data);
  }

  lemma StatesOf(base: Fs, filling: seq<Fs>, ending: seq<Fs>, tmp: Name, target: Name, data: Bytes)
    requires WellFormed(base) && tmp !in base.dir
    requires [base, Create(base, tmp)] <= filling
    requires forall st | st in filling[2..] :: Building(base, st, tmp)
    requires tmp != target ==> forall st | st in ending :: OldOrFinished(base, st, target, data)
    ensures filling + [] == filling
    ensures Replacing(base, filling + ending, |filling|, tmp, target, data)
  {
    hide OldOrFinished;
    CreateBuilds(base, tmp);
    var states := filling + ending;
    assert states[1..|filling|] == [filling[1]] + filling[2..];
    assert states[|filling|..] == ending;
  }

  lemma ReplacementIsAtomic(base: Fs, states: seq<Fs>, ending: nat, tmp: Name, target: Name, data: Bytes)
    requires WellFormed(base) && Replacing(base, states, ending, tmp, target, data) && MkstempMayPick(base, tmp)
    ensures tmp != target ==> AtomicThroughout(base, states, target, data)
    ensures tmp == target && Settled(base, target) ==> !AtomicThroughout(base, states, target, data)
  {
    hide Atomic, OldOrFinished, Building, TemplateShaped;
    if tmp != target {
      NothingDone(base, target, data);
      forall st | st in states ensures Atomic(base, st, target, data) {
        if st in states[1..ending] {
          BuildingIsOldOrFinished(base, st, tmp, target, data);
          OldOrFinishedIsAtomic(base, st, target, data);
        } else if st in states[ending..] {
          OldOrFinishedIsAtomic(base, st, target, data);
        } else {
          assert st == states[0] by { assert states == [states[0]] + states[1..ending] + states[ending..]; }
          assert st in [base, base];
        }
      }
    } else if Settled(base, target) {
      CollisionTears(base, target, data);
      assert states[1] in states;
    }
  }

  // ---- Reading a whole file ----

  /** ReadFully: None when power is lost, otherwise whether all `out` was filled. */
  method ReadFully(sys: FileSystem, i: Inode, out: array<byte>) returns (filled: Option<bool>)
    requires i < |sys.fs.files| && out.Length == |sys.fs.files[i].content|
    modifies sys`refused, sys`schedule, sys`calls, out
    ensures (filled == Some(false) || old(sys.refused) ==> sys.refused) && (filled == None ==> sys.schedule == [])
    ensures filled == Some(true) ==> sys.refused == old(sys.refused)
    ensures filled == Some(true) ==> out[..] == sys.fs.files[i].content
  {
    ghost var content := sys.fs.files[i].content;
    var done: nat := 0;
    while done < out.Length
      invariant done <= out.Length && out[..done] == content[..done]
      invariant sys.refused == old(sys.refused)
      decreases |sys.schedule|
    {
      var r, bytes := sys.Read(i, done, out.Length - done);
      if r.PowerLoss? {
        return None;
      }
      if r.Refused? {
        if r.interrupted {
          continue;
        }
        return Some(false);
      }
      if r.count == 0 {
        return Some(false);
      }
      ghost var before := out[..];
      CopyIn(out, done, bytes);
      Extends(before, out[..], 0, done, bytes);
      assert out[..done + r.count] == out[0..done + r.count] && before[0..done] == before[..done];
      assert content[..done + r.count] == content[..done] + content[done..][..r.count];
      done := done + r.count;
    }
    assert out[..] == out[..done] && content == content[..done];
    return Some(true);
  }

  /** What the way a read ends says about the contents of the file. */
  ghost predicate ContentsRead(content: Bytes, maxSize: nat, rc: Option<Status>, plain: Bytes, sizeMax: nat, t: seq<Event>) {
    && (rc == Some(OK) ==> plain == content)
    && (rc == Some(OK) || rc == Some(MEMORY) ==> |content| <= maxSize && |content| <= sizeMax)
    && (rc == Some(TOO_LARGE) ==> (|content| > maxSize || |content| > sizeMax) && t == [])
    && (rc == Some(MEMORY) ==> Blamed(t, MEMORY))
  }

  /** Without success the buffer does not matter. */
  lemma NothingDelivered(content: Bytes, maxSize: nat, rc: Option<Status>, plain: Bytes, kept: Bytes, sizeMax: nat, t: seq<Event>)
    requires rc == None || (rc != Some(OK) && ContentsRead(content, maxSize, rc, plain, sizeMax, t))
    ensures ContentsRead(content, maxSize, rc, kept, sizeMax, t)
  {
  }

  /** From fstat to the last read, into a buffer that belongs to the caller. */
  method ReadContents(sys: FileSystem, m: Machine, i: Inode, maxSize: nat, buffer: SecureBuffer, ghost base: set<array<byte>>)
    returns (rc: Option<Status>)
    requires i < |sys.fs.files| && Holds1(m, base, buffer) && buffer.data == null && m.trace == []
    modifies sys`refused, sys`schedule, sys`seen, sys`calls, m, buffer
    ensures Holds1(m, base, buffer) && fresh(Data(buffer))
    ensures rc == None || rc == Some(OK) || rc == Some(IO) || rc == Some(TOO_LARGE) || rc == Some(MEMORY)
    ensures rc == None ==> sys.schedule == []
    ensures if rc == Some(IO) then sys.refused else rc == None || sys.refused == old(sys.refused)
    ensures ContentsRead(sys.fs.files[i].content, maxSize, rc, buffer.Contents(), m.sizeMax, m.trace)
  {
    hide AllWiped;
    var r := sys.Quiet(FSTAT);  // and is it a regular file
    if !r.Done? {
      return if r.PowerLoss? then None else Some(IO);
    }
    var size := |sys.fs.files[i].content|;
    if size > maxSize || size > m.sizeMax {
      return Some(TOO_LARGE);
    }
    var ok := ObtainOnly(m, base, buffer, size);
    if !ok {
      return Some(MEMORY);
    }
    if size > 0 {
      var filled := ReadFully(sys, i, buffer.data);
      if filled != Some(true) {
        assert filled == None || filled.value == false;
        return if filled == None then None else Some(IO);
      }
    }
    return Some(OK);
  }

  /** ReadFile once the file is open. */
  method ReadOpened(sys: FileSystem, m: Machine, i: Inode, maxSize: nat, out: SecureBuffer, outSize: SizeCell)
    returns (rc: Option<Status>)
    requires i < |sys.fs.files| && AllWiped(m.heap) && out.Valid() && Data(out) <= Live(m) && m.trace == []
    modifies sys`refused, sys`schedule, sys`seen, sys`calls, m, out, out.data, outSize
    ensures AllWiped(m.heap) && out.Valid()
    ensures rc == None || rc == Some(OK) || rc == Some(IO) || rc == Some(TOO_LARGE) || rc == Some(MEMORY)
    ensures rc == None ==> sys.schedule == []
    ensures if rc == Some(IO) then sys.refused else rc == None || sys.refused == old(sys.refused)
    ensures rc != None ==> sys.calls != [] && sys.calls[|sys.calls| - 1] == CLOSE
    ensures rc != Some(OK) ==> unchanged(out) && out.Contents() == old(out.Contents()) && unchanged(outSize) && Live(m) == old(Live(m))
    ensures rc == Some(OK) ==> outSize.value == out.size && Live(m) == old(Live(m)) - old(Data(out)) + Data(out)
    ensures ContentsRead(sys.fs.files[i].content, maxSize, rc, out.Contents(), m.sizeMax, m.trace)
  {
    hide AllWiped, ContentsRead;
    var buffer := new SecureBuffer();
    ghost var base := Live(m);
    rc := ReadContents(sys, m, i, maxSize, buffer, base);
    if rc != None {
      var lost := sys.CloseUnchecked();
      if lost {
        rc := None;
      }
    }
    if rc == Some(OK) {
      outSize.value := buffer.size;
      HandOver(m, base, out, buffer);
    } else {
      NothingDelivered(sys.fs.files[i].content, maxSize, rc, buffer.Contents(), out.Contents(), m.sizeMax, m.trace);
      EndScope(m, base, buffer);
    }
  }

  /** ReadFile: all of the file or nothing, nothing allocated for a file over the
      limit, and the descriptor closed however it ends.  The trace is that of
      this call. */
  method ReadFile(sys: FileSystem, m: Machine, name: Name, maxSize: nat, out: SecureBuffer, outSize: SizeCell)
    returns (rc: Option<Status>)
    requires WellFormed(sys.fs) && AllWiped(m.heap) && out.Valid() && Data(out) <= Live(m)
    modifies sys`refused, sys`schedule, sys`seen, sys`calls, m, out, out.data, outSize
    ensures AllWiped(m.heap) && out.Valid()
    ensures rc == None || rc == Some(OK) || rc == Some(IO) || rc == Some(TOO_LARGE) || rc == Some(MEMORY)
    ensures rc == None ==> sys.schedule == []
    ensures rc != None && !old(sys.refused) ==> (rc == Some(IO) <==> sys.refused || name !in sys.fs.dir)
    ensures rc == Some(IO) ==> sys.refused || name !in sys.fs.dir
    ensures rc != None ==>
      || (rc == Some(IO) && sys.calls == old(sys.calls) + [OPEN])
      || (sys.calls != [] && sys.calls[|sys.calls| - 1] == CLOSE)
    ensures rc != Some(OK) ==> unchanged(out) && out.Contents() == old(out.Contents()) && unchanged(outSize) && Live(m) == old(Live(m))
    ensures rc == Some(OK) ==> outSize.value == out.size && Live(m) == old(Live(m)) - old(Data(out)) + Data(out)
    ensures rc == None || rc == Some(IO) ||
      (Lookup(sys.fs, name).Some? && ContentsRead(Lookup(sys.fs, name).value, maxSize, rc, out.Contents(), m.sizeMax, m.trace))
  {
    hide AllWiped, ContentsRead;
    m.trace := [];
    var r := sys.Quiet(OPEN);
    if !r.Done? || name !in sys.fs.dir {
      return if r.PowerLoss? then None else Some(IO);
    }
    rc := ReadOpened(sys, m, sys.fs.dir[name], maxSize, out, outSize);
  }
}
