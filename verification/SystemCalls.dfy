// The system calls of a running process (syscall.c) as values: what each of them
// answers and what it does to the processes, and what a program leaves behind.
module SystemCalls {
  import opened Arith
  import opened FileSystem
  import opened ProcessState

  // What the terminal or the clock does when it is read.
  datatype Device = Device(answer: int, stored: seq<byte>)

  datatype SysCall =
    | ExecuteCall(name: seq<byte>, args: seq<byte>, esp: int, ebp: int)
    | HaltCall(status: int, esp: int, ebp: int)    // esp, ebp: when the base shell is executed again
    | OpenCall(name: seq<byte>)
    | CloseCall(fd: int)
    | ReadCall(fd: int, hasBuf: bool, n: int, device: Device, beyond: Name)
    | WriteCall(fd: int, hasBuf: bool, answer: int)
  {
    // The types of the parameters.
    predicate Typed() {
      match this
      case HaltCall(status, _, _) => 0 <= status <= 255
      case ReadCall(_, _, n, _, _) => n < 0x8000_0000
      case _ => true
    }
  }

  // What a call gives: a program is entered or not; a halt returns to the parent, or
  // the base shell runs again; any other call returns r and stores bytes.
  datatype Result =
    | Executed
    | Refused
    | HaltedTo(esp: int, ebp: int, status: int)
    | ShellAgain
    | Answer(r: int, bytes: seq<byte>)

  // ----- the calls on descriptors -----

  // What a read returns and stores, and how far the position moves.
  datatype ReadOutcome = ReadOutcome(r: int, bytes: seq<byte>, step: int)

  const READ_FAILS := ReadOutcome(-1, [], 0)

  ghost function ReadEffect(
      disk: Disk, fda: Fda, fd: int, hasBuf: bool, n: int, device: Device, beyond: Name): ReadOutcome
    requires disk.Valid() && FdaOk(disk, fda)
  {
    if !hasBuf || !(0 <= fd < MAX_OPEN_FILES) || fda[fd].flags == 0 then READ_FAILS
    else
      assert DescriptorOk(disk, fda[fd]);
      var f := fda[fd];
      match f.fop
      case FileOps =>
        if n <= 0 then READ_FAILS
        else
          var s := Slice(disk.Contents(f.inode), f.position, n);
          ReadOutcome(|s|, s, |s|)
      case DirOps =>
        if f.position % 256 > disk.dirCount then READ_FAILS
        else
          var name := EntryName(disk, beyond, f.position % 256);
          ReadOutcome(|Letters(name, 0)|, Padded(name), 1)
      case StdinOps => ReadOutcome(device.answer, device.stored, 0)
      case RtcOps => ReadOutcome(device.answer, [], 0)
      case _ => READ_FAILS
  }

  // A file read stores at most the n bytes asked for; a directory read keeps to them
  // exactly when a whole name was asked for, or no entry is left.
  lemma ReadStaysWithinIff(disk: Disk, fda: Fda, fd: int, n: int, device: Device, beyond: Name)
    requires disk.Valid() && FdaOk(disk, fda) && 0 <= fd < MAX_OPEN_FILES && fda[fd].fop in {FileOps, DirOps} && n >= 0
    ensures |ReadEffect(disk, fda, fd, true, n, device, beyond).bytes| <= n
      <==> fda[fd].fop == FileOps || fda[fd].position % 256 > disk.dirCount || n >= NAME_SIZE
  {
    assert DescriptorOk(disk, fda[fd]);
    hide Padded, EntryName;
  }

  // The table after a read.
  function AfterRead(fda: Fda, fd: int, step: int): Fda {
    if 0 <= fd < MAX_OPEN_FILES then Moved(fda, fd, step) else fda
  }

  // Open gives the lowest free descriptor from 2 on, on the entry that the name
  // denotes; it fails exactly when there is none of either.
  ghost predicate OpenAnswers(disk: Disk, fda: Fda, name: seq<byte>, fd: int, fda': Fda)
    requires disk.Valid()
  {
    && (fd == -1 <==> FirstFree(fda, FILE_DESC_START_IDX) == -1 || forall i :: !Openable(disk, name, i))
    && (fd == -1 ==> fda' == fda)
    && (fd != -1 ==>
         && fd == FirstFree(fda, FILE_DESC_START_IDX) && 0 <= fd < MAX_OPEN_FILES
         && exists i ::
              Openable(disk, name, i) && fda' == Opened(fda, fd, disk.entries[i].fileType, disk.entries[i].inode))
  }

  predicate CanClose(fda: Fda, fd: int) {
    FILE_DESC_START_IDX <= fd < MAX_OPEN_FILES && fda[fd].flags != 0
  }

  // What a call on descriptors answers, and the table it leaves.
  ghost predicate Answers(disk: Disk, fda: Fda, call: SysCall, a: Result, fda': Fda)
    requires disk.Valid() && FdaOk(disk, fda)
  {
    && a.Answer?
    && match call
       case OpenCall(name) => OpenAnswers(disk, fda, name, a.r, fda') && a.bytes == []
       case CloseCall(fd) =>
         if CanClose(fda, fd) then a == Answer(0, []) && fda' == Closed(fda, fd) else a == Answer(-1, []) && fda' == fda
       case ReadCall(fd, hasBuf, n, device, beyond) =>
         var e := ReadEffect(disk, fda, fd, hasBuf, n, device, beyond);
         a == Answer(e.r, e.bytes) && fda' == AfterRead(fda, fd, e.step)
       case WriteCall(fd, hasBuf, answer) =>
         && a == Answer(if hasBuf && 0 <= fd < MAX_OPEN_FILES then WriteResult(fda[fd].fop, answer) else -1, [])
         && fda' == fda
       case _ => false
  }

  // ----- runs of system calls -----

  // The calls that end a run: a program, or the base shell when it is halted, does
  // not fit in its page, or the base shell cannot be loaded.
  ghost predicate Stops(disk: Disk, shell: seq<byte>, k: int, call: SysCall)
    requires disk.Valid()
  {
    match call
    case ExecuteCall(name, _, _, _) => k < MAX_PROCESSES && Loadable(disk, name) && !Fits(disk, name)
    case HaltCall(_, _, _) => k == 1 && !Fits(disk, shell)
    case _ => false
  }

  // What a system call does to k processes, and its result.
  ghost predicate Does(disk: Disk, shell: seq<byte>, s: Machine, k: int, call: SysCall, c: Call, a: Result)
    requires disk.Valid() && Stacked(disk, s, k) && k > 0
  {
    && !Stops(disk, shell, k, call) && Allowed(disk, k, c)
    && match call
       case ExecuteCall(name, args, esp, ebp) =>
         && c == (if Loadable(disk, name) then Exec(args, esp, ebp) else ExecFails)
         && a == if Loadable(disk, name) && k < MAX_PROCESSES then Executed else Refused
       case HaltCall(status, esp, ebp) =>
         if k == 1 then c == Restart([], esp, ebp) && a == ShellAgain
         else c == HaltNow && a == HaltedTo(s.pcbs[k - 1].esp, s.pcbs[k - 1].ebp, if status == 255 then 256 else status)
       case _ => c.Update? && Answers(disk, s.pcbs[k - 1].fda, call, a, c.fda)
  }

  // A run: the calls, what each does, and what each gives.
  ghost predicate Ran(disk: Disk, shell: seq<byte>, s: Machine, k: int,
      calls: seq<SysCall>, trace: seq<Call>, results: seq<Result>)
    requires disk.Valid() && Stacked(disk, s, k) && k > 0
    decreases |calls|
  {
    && |trace| == |results| == |calls|
    && (calls != [] ==>
         && Does(disk, shell, s, k, calls[0], trace[0], results[0])
         && (StillRuns(disk, k, trace[0]);
             ApplyKeeps(disk, s, k, trace[0]);
             var t := Apply(disk, s, k, trace[0]);
             Ran(disk, shell, t, DepthAfter(k, trace[0]), calls[1..], trace[1..], results[1..])))
  }

  lemma StillRuns(disk: Disk, k: int, c: Call)
    requires Allowed(disk, k, c) && k > 0
    ensures DepthAfter(k, c) > 0
  {}

  // A run of system calls is a run of the calls that they make.
  lemma {:induction false} RanRuns(disk: Disk, shell: seq<byte>, s: Machine, k: int,
      calls: seq<SysCall>, trace: seq<Call>, results: seq<Result>)
    requires disk.Valid() && Stacked(disk, s, k) && k > 0 && Ran(disk, shell, s, k, calls, trace, results)
    ensures RunsAbove(disk, 0, k, trace) && |trace| == |results| == |calls|
    decreases |calls|
  {
    hide Stacked, Apply, Stops, Answers;
    if calls != [] {
      StillRuns(disk, k, trace[0]);
      ApplyKeeps(disk, s, k, trace[0]);
      RanRuns(disk, shell, Apply(disk, s, k, trace[0]), DepthAfter(k, trace[0]), calls[1..], trace[1..], results[1..]);
    }
  }

  // The last call of a run.
  lemma {:induction false} RanLast(disk: Disk, shell: seq<byte>, s: Machine, k: int,
      calls: seq<SysCall>, trace: seq<Call>, results: seq<Result>)
    requires disk.Valid() && Stacked(disk, s, k) && k > 0 && calls != []
    requires Ran(disk, shell, s, k, calls, trace, results)
    ensures var n := |calls| - 1;
      && RunsAbove(disk, 0, k, trace[..n]) && DepthAfterAll(k, trace[..n]) > 0
      && var t, depth := ApplyAll(disk, s, k, 0, trace[..n]), DepthAfterAll(k, trace[..n]);
      Stacked(disk, t, depth) && Does(disk, shell, t, depth, calls[n], trace[n], results[n])
    decreases |calls|
  {
    hide Stacked, Apply, Does;
    var n := |calls| - 1;
    if n > 0 {
      assert Allowed(disk, k, trace[0]) by { DoesAllowed(disk, shell, s, k, calls[0], trace[0], results[0]); }
      StillRuns(disk, k, trace[0]);
      ApplyKeeps(disk, s, k, trace[0]);
      RanLast(disk, shell, Apply(disk, s, k, trace[0]), DepthAfter(k, trace[0]), calls[1..], trace[1..], results[1..]);
      assert trace[1..][..n - 1] == trace[..n][1..];
    } else {
      assert trace[..n] == [];
    }
  }

  lemma DoesAllowed(disk: Disk, shell: seq<byte>, s: Machine, k: int, call: SysCall, c: Call, a: Result)
    requires disk.Valid() && Stacked(disk, s, k) && k > 0 && Does(disk, shell, s, k, call, c, a)
    ensures Allowed(disk, k, c) && !Stops(disk, shell, k, call)
  {}

  // The first call of a run executes a program, and the last is the halt that
  // matches it: in between at least one process more than before is running, and
  // before the halt exactly one more.
  ghost predicate Matching(disk: Disk, k: int, trace: seq<Call>) {
    && |trace| >= 2
    && RunsAbove(disk, k, k + 1, trace[1..|trace| - 1]) && DepthAfterAll(k + 1, trace[1..|trace| - 1]) == k + 1
  }

  // Whatever a program and the programs it executes do, when it has halted its
  // parent finds everything as it was: process number and block, kernel stack,
  // program page, its own block with the descriptor table, and those of the
  // processes below.  The halt returns through the registers saved by the execute.
  lemma ProgramRoundTrip(disk: Disk, shell: seq<byte>, s: Machine, k: int,
      calls: seq<SysCall>, trace: seq<Call>, results: seq<Result>)
    requires disk.Valid() && Stacked(disk, s, k) && 0 < k < MAX_PROCESSES
    requires Ran(disk, shell, s, k, calls, trace, results)
    requires Matching(disk, k, trace) && calls[0].ExecuteCall? && Loadable(disk, calls[0].name)
    requires calls[|calls| - 1].HaltCall?
    ensures results[0] == Executed && RunsAbove(disk, 0, k, trace)
    ensures var t := ApplyAll(disk, s, k, 0, trace);
      && t.pid == s.pid && t.pcbObj == s.pcbObj && t.esp0 == s.esp0 && t.frame == s.frame
      && |t.pcbs| == |s.pcbs| == MAX_PROCESSES && t.pcbs[..k] == s.pcbs[..k] && Stacked(disk, t, k)
    ensures var exec, status := calls[0], calls[|calls| - 1].status;
      results[|calls| - 1] == HaltedTo(exec.esp, exec.ebp, if status == 255 then 256 else status)
  {
    hide Ran, Stacked, ApplyAll, RunsAbove, Answers, Stops;
    var n := |calls| - 1;
    RanRuns(disk, shell, s, k, calls, trace, results);
    FirstIsExec(disk, shell, s, k, calls, trace, results);
    RanLast(disk, shell, s, k, calls, trace, results);
    var mid := trace[1..n];
    assert trace[..n] == [trace[0]] + mid && trace == [trace[0]] + mid + [trace[n]];
    TraceRoundTrip(disk, s, k, calls[0].args, calls[0].esp, calls[0].ebp, mid);
  }

  // The same of the calls made.
  lemma TraceRoundTrip(disk: Disk, s: Machine, k: int, args: seq<byte>, esp: int, ebp: int, mid: seq<Call>)
    requires Stacked(disk, s, k) && 0 < k < MAX_PROCESSES
    requires RunsAbove(disk, k, k + 1, mid) && DepthAfterAll(k + 1, mid) == k + 1
    requires RunsAbove(disk, 0, k, [Exec(args, esp, ebp)] + mid)
    requires RunsAbove(disk, 0, k, [Exec(args, esp, ebp)] + mid + [HaltNow])
    ensures var c := [Exec(args, esp, ebp)] + mid;
      var t := ApplyAll(disk, s, k, 0, c);
      && DepthAfterAll(k, c) == k + 1 && |t.pcbs| == MAX_PROCESSES && t.pcbs[k].esp == esp && t.pcbs[k].ebp == ebp
    ensures var t := ApplyAll(disk, s, k, 0, [Exec(args, esp, ebp)] + mid + [HaltNow]);
      && t.pid == s.pid && t.pcbObj == s.pcbObj && t.esp0 == s.esp0 && t.frame == s.frame
      && |t.pcbs| == |s.pcbs| == MAX_PROCESSES && t.pcbs[..k] == s.pcbs[..k] && Stacked(disk, t, k)
  {
    ExecuteHaltRoundTrip(disk, s, k, args, esp, ebp, mid);
    FirstApplied(disk, s, k, Exec(args, esp, ebp), mid);
    assert |s.pcbs| == MAX_PROCESSES;
    hide Stacked, Execute, Halt, ApplyAll, RunsAbove;
    LowerFloor(disk, Execute(s, args, esp, ebp), k + 1, k, mid);
    RunMore(disk, s, k, 0, [Exec(args, esp, ebp)] + mid, HaltNow);
  }

  lemma FirstIsExec(disk: Disk, shell: seq<byte>, s: Machine, k: int,
      calls: seq<SysCall>, trace: seq<Call>, results: seq<Result>)
    requires disk.Valid() && Stacked(disk, s, k) && 0 < k < MAX_PROCESSES
    requires Ran(disk, shell, s, k, calls, trace, results)
    requires calls != [] && calls[0].ExecuteCall? && Loadable(disk, calls[0].name)
    ensures |trace| == |results| == |calls| && |s.pcbs| == MAX_PROCESSES
    ensures trace[0] == Exec(calls[0].args, calls[0].esp, calls[0].ebp) && results[0] == Executed
    ensures Stacked(disk, Execute(s, calls[0].args, calls[0].esp, calls[0].ebp), k + 1)
  {
    ExecuteKeeps(disk, s, k, calls[0].args, calls[0].esp, calls[0].ebp);
  }

  lemma FirstApplied(disk: Disk, s: Machine, k: int, c: Call, calls: seq<Call>)
    requires Stacked(disk, s, k) && RunsAbove(disk, 0, k, [c] + calls)
    ensures Allowed(disk, k, c) && Stacked(disk, Apply(disk, s, k, c), DepthAfter(k, c))
    ensures RunsAbove(disk, 0, DepthAfter(k, c), calls)
    ensures ApplyAll(disk, s, k, 0, [c] + calls) == ApplyAll(disk, Apply(disk, s, k, c), DepthAfter(k, c), 0, calls)
    ensures DepthAfterAll(k, [c] + calls) == DepthAfterAll(DepthAfter(k, c), calls)
  {
    assert ([c] + calls)[1..] == calls;
    ApplyKeeps(disk, s, k, c);
  }
}
