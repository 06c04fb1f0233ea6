/** Runs: any sequence of operations, by path as the FUSE callbacks receive them, remounts included. */
module Runs {
  import opened Layout
  import opened Paths
  import opened TreeSteps
  import opened FsSpec
  import opened Fsck
  import opened NameTree
  import MkdirStep
  import RemoveStep
  import RenameStep
  import FileStep
  import MountStep

  datatype Op =
    | MkdirAt(path: string)
    | RmdirAt(path: string)
    | UnlinkAt(path: string)
    | RenameAt(from: string, to: string)
    | OpenAt(path: string, create: bool, append: bool, flags: nat)
    | CloseAt(fid: nat)
    | WriteAt(fid: nat, buf: seq<bv8>, offset: nat)
    | ReadAt(fid: nat, size: nat, offset: nat)
    | Unmount

  function InDir(s: State, path: string): Option<nat> {
    if '/' in path then Walk(s, DirName(path)) else None
  }

  /** What an operation tells its caller. */
  datatype Reply =
    | Done(status: Status)
    | Opened(fid: nat)
    | Wrote(count: nat)
    | Got(bytes: seq<bv8>)

  function Told(r: (State, Status)): (State, Reply) {
    (r.0, Done(r.1))
  }

  /** One operation. A path whose directory part does not exist fails before the operation starts. */
  function Step(s: State, op: Op): (State, Reply) {
    match op
    case MkdirAt(path) => (match InDir(s, path) case None => (s, Done(NoEntry)) case Some(par) => Told(Mkdir(s, par, BaseName(path))))
    case RmdirAt(path) => (match InDir(s, path) case None => (s, Done(NoEntry)) case Some(par) => Told(Rmdir(s, par, BaseName(path))))
    case UnlinkAt(path) => (match InDir(s, path) case None => (s, Done(NoEntry)) case Some(par) => Told(Unlink(s, par, BaseName(path))))
    case RenameAt(from, to) => if '/' in from && '/' in to then Told(Rename(s, from, to)) else (s, Done(Error))
    case OpenAt(path, create, append, flags) =>
      (match InDir(s, path)
       case None => (s, Done(NoEntry))
       case Some(par) =>
         var (s', fid) := OpenFileIn(s, par, BaseName(path), create, append, flags);
         (s', if fid.Some? then Opened(fid.value) else Done(Error)))
    case CloseAt(fid) => (Close(s, fid), Done(Success))
    case WriteAt(fid, buf, offset) =>
      if fid >= |s.files| then (s, Done(Error))
      else
        var (s', count) := Write(s, fid, buf, offset);
        (s', if count.Some? then Wrote(count.value) else Done(Error))
    case ReadAt(fid, size, offset) =>
      if fid >= |s.files| then (s, Done(Error))
      else
        var (s', data) := Read(s, fid, size, offset);
        (s', Got(data))
    case Unmount => (Remount(s), Done(Success))
  }

  /** A path the kernel hands down: legal names, directories on the way. */
  ghost predicate GoodPath(s: State, path: string) {
    PathFits(path) && LegalPath(Tokens(path)) && LegalName(BaseName(path)) && RenameStep.WalkSafe(s, Tokens(path))
  }

  /** What the layer above guarantees of the operation, and for a rename the condition under which
      do_rename keeps the invariant (RenameStep.RenameConsistentIff). */
  ghost predicate Allowed(s: State, op: Op) {
    match op
    case MkdirAt(path) => GoodPath(s, path)
    case RmdirAt(path) => GoodPath(s, path) && (Walk(s, path).Some? ==> IsDir(s.mem.itable, Walk(s, path).value))
    case UnlinkAt(path) =>
      GoodPath(s, path) &&
      (Walk(s, path).Some? ==> IsFile(s.mem.itable, Walk(s, path).value) && !RemoveStep.IsOpen(s, Walk(s, path).value))
    case RenameAt(from, to) =>
      RenameStep.CanRename(s, from, to) &&
      (RenameStep.Succeeds(s, from, to) ==>
         !Below(Tokens(from), RenameStep.LandingDir(s, to)) && RenameStep.Landing(s, from, to) !in NamesOf(s))
    case OpenAt(path, create, append, flags) =>
      GoodPath(s, path) && (Walk(s, path).Some? ==> !RemoveStep.IsOpen(s, Walk(s, path).value))
    case CloseAt(fid) => true
    case WriteAt(fid, buf, offset) => FileStep.CanWrite(s, fid, buf, offset)
    case ReadAt(fid, size, offset) => FileStep.CanRead(s, fid, size, offset)
    case Unmount => true
  }

  /** The directory of a good path, when it exists, and what is at the path. */
  lemma PathFacts(s: State, path: string)
    requires Consistent(s) && GoodPath(s, path)
    ensures Tokens(path) == Tokens(DirName(path)) + [BaseName(path)] && LegalPath(Tokens(DirName(path)))
    ensures InDir(s, path).Some? ==> MkdirStep.CanMkdir(s, InDir(s, path).value, BaseName(path))
    ensures Walk(s, path) == if InDir(s, path).Some? then RemoveStep.Target(s, InDir(s, path).value, BaseName(path)) else None
    ensures Tokens(path) in NamesOf(s) <==> Walk(s, path).Some?
  {
    hide Consistent;
    RenameStep.SourceDir(s, path);
    if InDir(s, path).Some? { RemoveStep.ViewAt(s, InDir(s, path).value); }
  }

  lemma NamespaceConsistent(s: State, op: Op)
    requires Consistent(s) && Allowed(s, op) && (op.MkdirAt? || op.RmdirAt? || op.UnlinkAt? || op.OpenAt?)
    ensures Consistent(Step(s, op).0)
  {
    hide Consistent, Mkdir, Rmdir, Unlink, OpenFileIn, NamesOf, Walk, RemoveStep.IsOpen;
    PathFacts(s, op.path);
    if InDir(s, op.path).Some? {
      var par, name := InDir(s, op.path).value, BaseName(op.path);
      match op
      case MkdirAt(path) => MkdirStep.MkdirConsistent(s, par, name);
      case RmdirAt(path) => RemoveStep.RmdirConsistent(s, par, name);
      case UnlinkAt(path) => RemoveStep.UnlinkConsistent(s, par, name);
      case OpenAt(path, create, append, flags) => FileStep.OpenConsistent(s, par, name, create, append, flags);
    }
  }

  lemma RenameConsistent(s: State, from: string, to: string)
    requires Consistent(s) && Allowed(s, RenameAt(from, to))
    ensures Consistent(Step(s, RenameAt(from, to)).0)
  {
    hide Consistent, Rename, NamesOf, RenameStep.Landing, RenameStep.LandingDir, RenameStep.TargetTaken, Below, Walk;
    RenameStep.RenameStatus(s, from, to);
    if Rename(s, from, to).1 == Success { RenameStep.RenameConsistentIff(s, from, to); }
  }

  /** Every allowed operation keeps the invariant. */
  lemma StepConsistent(s: State, op: Op)
    requires Consistent(s) && Allowed(s, op)
    ensures Consistent(Step(s, op).0)
  {
    hide Consistent, Write, Read, Close, Remount, GoodPath, Walk, NamesOf;
    match op
    case RenameAt(from, to) => RenameConsistent(s, from, to);
    case CloseAt(fid) => FileStep.CloseConsistent(s, fid);
    case WriteAt(fid, buf, offset) => FileStep.WriteConsistent(s, fid, buf, offset);
    case ReadAt(fid, size, offset) => FileStep.ReadChangesNothing(s, fid, size, offset);
    case Unmount => MountStep.RemountConsistent(s);
    case _ => NamespaceConsistent(s, op);
  }

  function Run(s: State, ops: seq<Op>): State
    decreases |ops|
  {
    if ops == [] then s else Run(Step(s, ops[0]).0, ops[1..])
  }

  ghost predicate AllowedRun(s: State, ops: seq<Op>)
    decreases |ops|
  {
    ops == [] || (Allowed(s, ops[0]) && AllowedRun(Step(s, ops[0]).0, ops[1..]))
  }

  lemma {:induction false} RunKeepsConsistent(s: State, ops: seq<Op>)
    requires Consistent(s) && AllowedRun(s, ops)
    ensures Consistent(Run(s, ops))
    decreases |ops|
  {
    hide Consistent, Step, Allowed;
    if ops != [] {
      StepConsistent(s, ops[0]);
      RunKeepsConsistent(Step(s, ops[0]).0, ops[1..]);
    }
  }

  /** Every state reached from a format is consistent. */
  lemma ReachableConsistent(sectors: nat, ops: seq<Op>)
    requires Formattable(sectors) && AllowedRun(FormatAndMount(sectors), ops)
    ensures Consistent(Run(FormatAndMount(sectors), ops))
  {
    MountStep.FormatConsistent(sectors);
    RunKeepsConsistent(FormatAndMount(sectors), ops);
  }
}
