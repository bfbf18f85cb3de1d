// What a program can rely on from one system call to the next, told by the answers
// alone.
module CallLaws {
  import opened Arith
  import opened FileSystem
  import opened ProcessState
  import opened SystemCalls

  // The calls that a program makes on its descriptors.
  predicate OnDescriptors(call: SysCall) { call.OpenCall? || call.CloseCall? || call.ReadCall? || call.WriteCall? }

  // The second call of a run starts where the first has led.
  lemma TwoCalls(disk: Disk, shell: seq<byte>, s: Machine, k: int,
      calls: seq<SysCall>, trace: seq<Call>, results: seq<Result>)
    requires disk.Valid() && Stacked(disk, s, k) && k > 0 && Ran(disk, shell, s, k, calls, trace, results)
    requires |calls| == 2
    ensures |trace| == |results| == 2 && Does(disk, shell, s, k, calls[0], trace[0], results[0])
    ensures Allowed(disk, k, trace[0]) && DepthAfter(k, trace[0]) > 0
    ensures var t, depth := Apply(disk, s, k, trace[0]), DepthAfter(k, trace[0]);
      Stacked(disk, t, depth) && Does(disk, shell, t, depth, calls[1], trace[1], results[1])
  {
    hide Stacked, Does, Apply;
    DoesAllowed(disk, shell, s, k, calls[0], trace[0], results[0]);
    StillRuns(disk, k, trace[0]);
    ApplyKeeps(disk, s, k, trace[0]);
  }

  // A call on descriptors works on the table of the running process.
  lemma TableAfter(disk: Disk, shell: seq<byte>, s: Machine, k: int, call: SysCall, c: Call, a: Result)
    requires disk.Valid() && Stacked(disk, s, k) && k > 0 && Does(disk, shell, s, k, call, c, a) && OnDescriptors(call)
    ensures c.Update? && DepthAfter(k, c) == k && |s.pcbs| == MAX_PROCESSES && k <= MAX_PROCESSES
    ensures FdaOk(disk, s.pcbs[k - 1].fda) && Answers(disk, s.pcbs[k - 1].fda, call, a, c.fda)
    ensures Allowed(disk, k, c) && Stacked(disk, Apply(disk, s, k, c), k)
    ensures |Apply(disk, s, k, c).pcbs| == MAX_PROCESSES && Apply(disk, s, k, c).pcbs[k - 1].fda == c.fda
  {
    ApplyKeeps(disk, s, k, c);
    SlotOfPcb(k - 1);
    hide FdaOk, Answers;
  }

  // So a run goes on with that table.
  lemma FirstOnTable(disk: Disk, shell: seq<byte>, s: Machine, k: int,
      calls: seq<SysCall>, trace: seq<Call>, results: seq<Result>)
    requires disk.Valid() && Stacked(disk, s, k) && k > 0 && Ran(disk, shell, s, k, calls, trace, results)
    requires calls != [] && OnDescriptors(calls[0])
    ensures |trace| == |results| == |calls| && trace[0].Update? && |s.pcbs| == MAX_PROCESSES && k <= MAX_PROCESSES
    ensures FdaOk(disk, s.pcbs[k - 1].fda)
    ensures Answers(disk, s.pcbs[k - 1].fda, calls[0], results[0], trace[0].fda) && Allowed(disk, k, trace[0])
    ensures var t := Apply(disk, s, k, trace[0]);
      && Stacked(disk, t, k) && |t.pcbs| == MAX_PROCESSES && t.pcbs[k - 1].fda == trace[0].fda
      && Ran(disk, shell, t, k, calls[1..], trace[1..], results[1..])
  {
    hide Stacked, Does, Apply, Answers, Allowed, FdaOk;
    TableAfter(disk, shell, s, k, calls[0], trace[0], results[0]);
  }

  // ----- a new program -----

  // The terminal on descriptors 0 and 1, and nothing else open.
  predicate Terminal(fda: Fda) {
    fda[0].fop == StdinOps && fda[0].flags == 1 && fda[1].fop == StdoutOps && fda[1].flags == 1
  }

  predicate OnlyTerminal(fda: Fda) {
    Terminal(fda) && forall i :: 2 <= i < MAX_OPEN_FILES ==> fda[i].fop == NullOps && fda[i].flags == 0
  }

  // The block of a program that has just been entered, and where it runs.  Process k,
  // counted from 0, has its block at the bottom of the k-th 8 KB below 8 MB, a kernel
  // stack that starts four bytes below the top of them, and the page at 8 MB and k
  // times 4 MB.
  lemma NewProgram(disk: Disk, shell: seq<byte>, s: Machine, k: int, exec: SysCall, c: Call)
    requires disk.Valid() && Stacked(disk, s, k) && k > 0
    requires exec.ExecuteCall? && Does(disk, shell, s, k, exec, c, Executed)
    ensures Allowed(disk, k, c) && DepthAfter(k, c) == k + 1
    ensures var t := Apply(disk, s, k, c);
      && Stacked(disk, t, k + 1) && |t.pcbs| == MAX_PROCESSES && k < MAX_PROCESSES
      && t.pid == k && t.pcbs[k].args == exec.args && t.pcbs[k].parentPid == s.pid
      && t.pcbObj == 0x80_0000 - 0x2000 * (k + 1) && t.esp0 == t.pcbObj + 0x2000 - 4
      && t.frame * 4096 == 0x80_0000 + 0x40_0000 * k
  {
    ExecuteKeeps(disk, s, k, exec.args, exec.esp, exec.ebp);
    assert Allowed(disk, k, c) && c == Exec(exec.args, exec.esp, exec.ebp) && k < MAX_PROCESSES;
    hide Does, Execute, Stacked;
    NewBlock(disk, s, k, exec.args, exec.esp, exec.ebp);
  }

  lemma NewBlock(disk: Disk, s: Machine, k: int, args: seq<byte>, esp: int, ebp: int)
    requires Stacked(disk, s, k) && 0 < k < MAX_PROCESSES
    ensures |s.pcbs| == MAX_PROCESSES
    ensures var t := Execute(s, args, esp, ebp);
      && |t.pcbs| == MAX_PROCESSES && t.pid == k && t.pcbs[k].args == args && t.pcbs[k].parentPid == s.pid
      && t.pcbObj == 0x80_0000 - 0x2000 * (k + 1) && t.esp0 == t.pcbObj + 0x2000 - 4
      && t.frame * 4096 == 0x80_0000 + 0x40_0000 * k
  {
    AssignIsTop(disk, s, k, 0);
    assert |s.pcbs| == MAX_PROCESSES;
    hide Stacked, AssignPid, FreshFda;
  }

  // Its descriptors.
  lemma FreshTableIs(disk: Disk, shell: seq<byte>, s: Machine, k: int, exec: SysCall, c: Call)
    requires disk.Valid() && Stacked(disk, s, k) && k > 0
    requires exec.ExecuteCall? && Does(disk, shell, s, k, exec, c, Executed)
    ensures Allowed(disk, k, c) && k < MAX_PROCESSES && |Apply(disk, s, k, c).pcbs| == MAX_PROCESSES
    ensures OnlyTerminal(Apply(disk, s, k, c).pcbs[k].fda)
  {
    AssignIsTop(disk, s, k, 0);
  }

  // Whatever call a new program makes first: it can write to descriptor 1 and read
  // from descriptor 0, and from no other; the first descriptor it is given is 2; it
  // has nothing to close; and a halt goes back to where it was executed.
  lemma FirstCall(disk: Disk, shell: seq<byte>, s: Machine, k: int,
      exec: SysCall, call: SysCall, trace: seq<Call>, results: seq<Result>)
    requires disk.Valid() && Stacked(disk, s, k) && k > 0 && exec.ExecuteCall?
    requires Ran(disk, shell, s, k, [exec, call], trace, results) && results[0] == Executed
    ensures |results| == 2
    ensures match call
      case WriteCall(fd, hasBuf, answer) => results[1] == Answer(if hasBuf && fd == 1 then answer else -1, [])
      case ReadCall(fd, hasBuf, _, device, _) =>
        results[1] == if hasBuf && fd == 0 then Answer(device.answer, device.stored) else Answer(-1, [])
      case OpenCall(name) => results[1] == Answer(if exists i :: Openable(disk, name, i) then 2 else -1, [])
      case CloseCall(_) => results[1] == Answer(-1, [])
      case HaltCall(status, _, _) => results[1] == HaltedTo(exec.esp, exec.ebp, if status == 255 then 256 else status)
      case ExecuteCall(_, _, _, _) => results[1] == Executed || results[1] == Refused
  {
    OnDescriptorsIff(call);
    hide *;
    TwoCalls(disk, shell, s, k, [exec, call], trace, results);
    NewProgram(disk, shell, s, k, exec, trace[0]);
    var t := Apply(disk, s, k, trace[0]);
    if OnDescriptors(call) {
      FreshTableIs(disk, shell, s, k, exec, trace[0]);
      TableAfter(disk, shell, t, k + 1, call, trace[1], results[1]);
      OnFresh(disk, t.pcbs[k].fda, call, results[1], trace[1].fda);
    } else {
      SavedRegisters(disk, shell, s, k, exec, trace[0]);
      OnProcess(disk, shell, t, k + 1, call, trace[1], results[1]);
    }
  }

  lemma OnDescriptorsIff(call: SysCall)
    ensures OnDescriptors(call) <==> !call.ExecuteCall? && !call.HaltCall?
  {}

  lemma OnProcess(disk: Disk, shell: seq<byte>, s: Machine, k: int, call: SysCall, c: Call, a: Result)
    requires disk.Valid() && Stacked(disk, s, k) && k > 1 && Does(disk, shell, s, k, call, c, a)
    ensures k <= MAX_PROCESSES == |s.pcbs|
    ensures call.HaltCall? ==>
      a == HaltedTo(s.pcbs[k - 1].esp, s.pcbs[k - 1].ebp, if call.status == 255 then 256 else call.status)
    ensures call.ExecuteCall? ==> a == Executed || a == Refused
  {}

  lemma OnFresh(disk: Disk, fda: Fda, call: SysCall, a: Result, fda': Fda)
    requires disk.Valid() && FdaOk(disk, fda) && Answers(disk, fda, call, a, fda') && OnDescriptors(call)
    requires OnlyTerminal(fda)
    ensures call.WriteCall? ==> a == Answer(if call.hasBuf && call.fd == 1 then call.answer else -1, [])
    ensures call.ReadCall? ==>
      a == if call.hasBuf && call.fd == 0 then Answer(call.device.answer, call.device.stored) else Answer(-1, [])
    ensures call.OpenCall? ==> a == Answer(if exists i :: Openable(disk, call.name, i) then 2 else -1, [])
    ensures call.CloseCall? ==> a == Answer(-1, [])
  {
    FirstFreeIsLowest(fda, FILE_DESC_START_IDX);
    hide FdaOk, Openable;
  }

  lemma SavedRegisters(disk: Disk, shell: seq<byte>, s: Machine, k: int, exec: SysCall, c: Call)
    requires disk.Valid() && Stacked(disk, s, k) && k > 0
    requires exec.ExecuteCall? && Does(disk, shell, s, k, exec, c, Executed)
    ensures Allowed(disk, k, c) && k < MAX_PROCESSES && |Apply(disk, s, k, c).pcbs| == MAX_PROCESSES
    ensures var pcb := Apply(disk, s, k, c).pcbs[k]; pcb.esp == exec.esp && pcb.ebp == exec.ebp
  {
    AssignIsTop(disk, s, k, 0);
  }

  // The base shell starts again with the same descriptors, whatever it had open.
  lemma FirstCallOfShell(disk: Disk, shell: seq<byte>, s: Machine, k: int,
      halt: SysCall, call: SysCall, trace: seq<Call>, results: seq<Result>)
    requires disk.Valid() && Stacked(disk, s, k) && k > 0 && halt.HaltCall? && OnDescriptors(call)
    requires Ran(disk, shell, s, k, [halt, call], trace, results) && results[0] == ShellAgain
    ensures |results| == 2
    ensures match call
      case WriteCall(fd, hasBuf, answer) => results[1] == Answer(if hasBuf && fd == 1 then answer else -1, [])
      case ReadCall(fd, hasBuf, _, device, _) =>
        results[1] == if hasBuf && fd == 0 then Answer(device.answer, device.stored) else Answer(-1, [])
      case OpenCall(name) => results[1] == Answer(if exists i :: Openable(disk, name, i) then 2 else -1, [])
      case _ => results[1] == Answer(-1, [])
  {
    TwoCalls(disk, shell, s, k, [halt, call], trace, results);
    ShellTable(disk, shell, s, k, halt, trace[0]);
    var t := Apply(disk, s, k, trace[0]);
    hide Stacked, Ran, Apply, FdaOk, Answers;
    TableAfter(disk, shell, t, 1, call, trace[1], results[1]);
    OnFresh(disk, t.pcbs[0].fda, call, results[1], trace[1].fda);
    hide Does;
  }

  lemma ShellTable(disk: Disk, shell: seq<byte>, s: Machine, k: int, halt: SysCall, c: Call)
    requires disk.Valid() && Stacked(disk, s, k) && k > 0
    requires halt.HaltCall? && Does(disk, shell, s, k, halt, c, ShellAgain)
    ensures k == 1 && Allowed(disk, k, c) && DepthAfter(k, c) == 1 && |Apply(disk, s, k, c).pcbs| == MAX_PROCESSES
    ensures OnlyTerminal(Apply(disk, s, k, c).pcbs[0].fda)
  {
    SlotOfPcb(0);
    assert AssignPid(ShellClosed(s).pcbs, 0) == 0;
  }

  // ----- an opened descriptor -----

  // At most 32 characters of a name up to the first zero, and zeros up to 32.
  predicate NameStored(name: Name, r: int, bytes: seq<byte>) {
    && 0 <= r <= NAME_SIZE == |bytes| && (forall i :: 0 <= i < r ==> name[i] != 0) && (r < NAME_SIZE ==> name[r] == 0)
    && forall i :: 0 <= i < NAME_SIZE ==> bytes[i] == if i < r then name[i] else 0
  }

  // What open has put in the table.
  lemma OpenedTable(disk: Disk, fda: Fda, name: seq<byte>, i: int, r: int, fda': Fda)
    requires disk.Valid() && FdaOk(disk, fda) && OpenAnswers(disk, fda, name, r, fda') && r != -1
    requires Denotes(disk, name, i)
    ensures 2 <= r < MAX_OPEN_FILES && fda[r].flags == 0 && 0 <= disk.entries[i].fileType <= 2
    ensures var f := fda'[r];
      && f.flags == 1 && f.position == 0 && f.inode == disk.entries[i].inode
      && f.fop == if disk.entries[i].fileType == 0 then RtcOps else if disk.entries[i].fileType == 1 then DirOps
        else FileOps
  {
    FirstFreeIsLowest(fda, FILE_DESC_START_IDX);
    hide SameName, Denotes;
    var j :| Openable(disk, name, j) && fda' == Opened(fda, r, disk.entries[j].fileType, disk.entries[j].inode);
    OneDenoted(disk, name, i, j);
  }

  lemma OneDenoted(disk: Disk, name: seq<byte>, i: int, j: int)
    requires disk.Valid() && Denotes(disk, name, i) && Denotes(disk, name, j)
    ensures i == j
  {
    hide SameName;
  }

  // Whatever call follows a successful open on the descriptor it gave.  A file gives
  // its first bytes, a directory the name of its first entry, and the clock only an
  // answer.  Only the clock can be written to.
  lemma AfterOpen(disk: Disk, shell: seq<byte>, s: Machine, k: int,
      name: seq<byte>, i: int, call: SysCall, trace: seq<Call>, results: seq<Result>)
    requires disk.Valid() && Stacked(disk, s, k) && k > 0 && Denotes(disk, name, i)
    requires Ran(disk, shell, s, k, [OpenCall(name), call], trace, results)
    requires results[0].Answer? && results[0].r != -1
    ensures |results| == 2 && results[1].Answer? <== OnDescriptors(call)
    ensures var r, entry := results[0].r, disk.entries[i];
      && 2 <= r < 8 && 0 <= entry.fileType <= 2
      && match call
         case ReadCall(fd, hasBuf, n, device, beyond) => fd == r ==>
           && (!hasBuf || (entry.fileType == 2 && n <= 0) ==> results[1] == Answer(-1, []))
           && (hasBuf && entry.fileType == 2 && n > 0 ==> var file := disk.Contents(entry.inode);
                results[1] == Answer(Min(n, |file|), file[..Min(n, |file|)]))
           && (hasBuf && entry.fileType == 1 ==> NameStored(disk.entries[0].name, results[1].r, results[1].bytes))
           && (hasBuf && entry.fileType == 0 ==> results[1] == Answer(device.answer, []))
         case WriteCall(fd, hasBuf, answer) => fd == r ==>
           results[1] == Answer(if hasBuf && entry.fileType == 0 then answer else -1, [])
         case CloseCall(fd) => fd == r ==> results[1] == Answer(0, [])
         case _ => true
  {
    var calls := [OpenCall(name), call];
    TwoCalls(disk, shell, s, k, calls, trace, results);
    hide Stacked, Ran, Apply, Denotes, Does, NameStored, FdaOk, Allowed;
    TableAfter(disk, shell, s, k, OpenCall(name), trace[0], results[0]);
    var t := Apply(disk, s, k, trace[0]);
    OpenedTable(disk, s.pcbs[k - 1].fda, name, i, results[0].r, trace[0].fda);
    hide OpenAnswers;
    if OnDescriptors(call) {
      hide Answers;
      TableAfter(disk, shell, t, k, call, trace[1], results[1]);
      OnOpened(disk, trace[0].fda, i, call, results[1], trace[1].fda, results[0].r);
    }
  }

  lemma OnOpened(disk: Disk, fda: Fda, i: int, call: SysCall, a: Result, fda': Fda, r: int)
    requires disk.Valid() && FdaOk(disk, fda) && Answers(disk, fda, call, a, fda') && 2 <= r < MAX_OPEN_FILES
    requires 0 <= i < disk.dirCount && 0 <= disk.entries[i].fileType <= 2
    requires fda[r].flags == 1 && fda[r].position == 0 && fda[r].inode == disk.entries[i].inode
    requires fda[r].fop
      == if disk.entries[i].fileType == 0 then RtcOps else if disk.entries[i].fileType == 1 then DirOps else FileOps
    ensures a.Answer?
    ensures call.ReadCall? && call.fd == r && !call.hasBuf ==> a == Answer(-1, [])
    ensures call.ReadCall? && call.fd == r && call.hasBuf ==>
      && (disk.entries[i].fileType == 2 && call.n <= 0 ==> a == Answer(-1, []))
      && (disk.entries[i].fileType == 2 && call.n > 0 ==> var file := disk.Contents(disk.entries[i].inode);
           a == Answer(Min(call.n, |file|), file[..Min(call.n, |file|)]))
      && (disk.entries[i].fileType == 1 ==> NameStored(disk.entries[0].name, a.r, a.bytes))
      && (disk.entries[i].fileType == 0 ==> a == Answer(call.device.answer, []))
    ensures call.WriteCall? && call.fd == r ==>
      a == Answer(if call.hasBuf && disk.entries[i].fileType == 0 then call.answer else -1, [])
    ensures call.CloseCall? && call.fd == r ==> a == Answer(0, [])
  {
    Stored(disk.entries[0].name);
    hide Padded, Letters, NameStored, FdaOk, OpenAnswers;
  }

  lemma Stored(name: Name)
    ensures NameStored(name, |Letters(name, 0)|, Padded(name))
  {
    LettersAre(name, 0);
    hide Letters;
  }

  // After a successful close the descriptor answers -1 to everything, and it or a
  // lower one is the next to be given out.
  lemma AfterClose(disk: Disk, shell: seq<byte>, s: Machine, k: int,
      fd: int, call: SysCall, trace: seq<Call>, results: seq<Result>)
    requires disk.Valid() && Stacked(disk, s, k) && k > 0
    requires Ran(disk, shell, s, k, [CloseCall(fd), call], trace, results) && results[0] == Answer(0, [])
    ensures 2 <= fd < 8 && |results| == 2
    ensures match call
      case ReadCall(other, _, _, _, _) => other == fd ==> results[1] == Answer(-1, [])
      case WriteCall(other, _, _) => other == fd ==> results[1] == Answer(-1, [])
      case CloseCall(other) => other == fd ==> results[1] == Answer(-1, [])
      case OpenCall(name) => results[1].Answer? && (results[1].r == -1 <==> forall i :: !Openable(disk, name, i))
        && (results[1].r != -1 ==> 2 <= results[1].r <= fd)
      case _ => true
  {
    var calls := [CloseCall(fd), call];
    TwoCalls(disk, shell, s, k, calls, trace, results);
    hide Stacked, Ran, Apply, Does, FdaOk, Openable;
    TableAfter(disk, shell, s, k, CloseCall(fd), trace[0], results[0]);
    var t := Apply(disk, s, k, trace[0]);
    assert 2 <= fd < MAX_OPEN_FILES && trace[0].fda[fd].fop == NullOps && trace[0].fda[fd].flags == 0;
    hide Answers;
    if OnDescriptors(call) {
      TableAfter(disk, shell, t, k, call, trace[1], results[1]);
      OnClosed(disk, trace[0].fda, call, results[1], trace[1].fda, fd);
    }
  }

  lemma OnClosed(disk: Disk, fda: Fda, call: SysCall, a: Result, fda': Fda, fd: int)
    requires disk.Valid() && FdaOk(disk, fda) && Answers(disk, fda, call, a, fda') && OnDescriptors(call)
    requires 2 <= fd < MAX_OPEN_FILES && fda[fd].fop == NullOps && fda[fd].flags == 0
    ensures !call.OpenCall? && call.fd == fd ==> a == Answer(-1, [])
    ensures a.Answer?
    ensures call.OpenCall? ==>
      (a.r == -1 <==> forall i :: !Openable(disk, call.name, i)) && (a.r != -1 ==> 2 <= a.r <= fd)
  {
    FirstFreeIsLowest(fda, FILE_DESC_START_IDX);
    hide FdaOk, Openable;
  }

  // ----- whole runs -----

  // A run of calls on descriptors, from one table to the next.
  ghost predicate OnTable(disk: Disk, fda: Fda, calls: seq<SysCall>, trace: seq<Call>, results: seq<Result>)
    requires disk.Valid()
    decreases |calls|
  {
    && |trace| == |results| == |calls| && FdaOk(disk, fda)
    && (calls != [] ==>
         && OnDescriptors(calls[0]) && trace[0].Update? && Answers(disk, fda, calls[0], results[0], trace[0].fda)
         && OnTable(disk, trace[0].fda, calls[1..], trace[1..], results[1..]))
  }

  lemma LengthsAgree(disk: Disk, fda: Fda, calls: seq<SysCall>, trace: seq<Call>, results: seq<Result>)
    requires disk.Valid() && OnTable(disk, fda, calls, trace, results)
    ensures |trace| == |results| == |calls|
  {
    hide Answers;
  }

  lemma FirstFromTable(disk: Disk, fda: Fda, calls: seq<SysCall>, trace: seq<Call>, results: seq<Result>)
    requires disk.Valid() && OnTable(disk, fda, calls, trace, results) && calls != []
    ensures |trace| == |results| == |calls| && FdaOk(disk, fda) && OnDescriptors(calls[0]) && trace[0].Update?
    ensures Answers(disk, fda, calls[0], results[0], trace[0].fda)
    ensures OnTable(disk, trace[0].fda, calls[1..], trace[1..], results[1..])
  {
    hide Answers;
  }

  lemma {:induction false} RanOnTable(disk: Disk, shell: seq<byte>, s: Machine, k: int,
      calls: seq<SysCall>, trace: seq<Call>, results: seq<Result>)
    requires disk.Valid() && Stacked(disk, s, k) && k > 0 && Ran(disk, shell, s, k, calls, trace, results)
    requires forall j :: 0 <= j < |calls| ==> OnDescriptors(calls[j])
    ensures |s.pcbs| == MAX_PROCESSES && k <= MAX_PROCESSES
    ensures OnTable(disk, s.pcbs[k - 1].fda, calls, trace, results)
    decreases |calls|
  {
    assert |s.pcbs| == MAX_PROCESSES && k <= MAX_PROCESSES && FdaOk(disk, s.pcbs[k - 1].fda);
    hide Stacked, Does, Apply, Answers, Allowed, FdaOk, OnDescriptors;
    if calls != [] {
      FirstOnTable(disk, shell, s, k, calls, trace, results);
      hide Ran;
      RanOnTable(disk, shell, Apply(disk, s, k, trace[0]), k, calls[1..], trace[1..], results[1..]);
    }
  }

  predicate IsRead(call: SysCall, fd: int) { call.ReadCall? && call.fd == fd }

  lemma ReadIs(call: SysCall, fd: int)
    requires call.ReadCall? && call.fd == fd
    ensures IsRead(call, fd)
  {}

  // Every call closes something else than the descriptor, and reads from it are
  // sensible.
  predicate KeepsOpen(calls: seq<SysCall>, fd: int) {
    forall j :: 0 <= j < |calls| ==>
      && OnDescriptors(calls[j]) && (calls[j].CloseCall? ==> calls[j].fd != fd)
      && (IsRead(calls[j], fd) ==> calls[j].hasBuf && calls[j].n > 0)
  }

  // How many bytes the calls ask for, how many reads there are, and what is stored.
  function Asked(calls: seq<SysCall>, fd: int): int {
    if calls == [] then 0
    else (if IsRead(calls[0], fd) then calls[0].n else 0) + Asked(calls[1..], fd)
  }

  function ReadsOf(calls: seq<SysCall>, fd: int): nat {
    if calls == [] then 0 else (if IsRead(calls[0], fd) then 1 else 0) + ReadsOf(calls[1..], fd)
  }

  function BytesRead(calls: seq<SysCall>, results: seq<Result>, fd: int): seq<byte>
    requires |calls| == |results|
  {
    if calls == [] then []
    else
      var first := if IsRead(calls[0], fd) && results[0].Answer? then results[0].bytes else [];
      first + BytesRead(calls[1..], results[1..], fd)
  }

  // A call on another descriptor leaves an open one as it is; a read moves its
  // position.
  lemma OneCall(disk: Disk, fda: Fda, call: SysCall, a: Result, fda': Fda, fd: int)
    requires disk.Valid() && FdaOk(disk, fda) && Answers(disk, fda, call, a, fda') && OnDescriptors(call)
    requires 0 <= fd < MAX_OPEN_FILES && fda[fd].flags == 1 && (call.CloseCall? ==> call.fd != fd)
    ensures a.Answer?
    ensures !(IsRead(call, fd)) ==> fda'[fd] == fda[fd]
    ensures IsRead(call, fd) ==>
      var e := ReadEffect(disk, fda, fd, call.hasBuf, call.n, call.device, call.beyond);
      a == Answer(e.r, e.bytes) && fda'[fd] == fda[fd].(position := fda[fd].position + e.step)
  {
    FirstFreeIsLowest(fda, FILE_DESC_START_IDX);
    hide ReadEffect, FdaOk;
  }

  // ----- the terminal -----

  // What the terminal gives to a call.
  predicate TerminalAnswers(call: SysCall, a: Result) {
    && (call.WriteCall? && call.fd == 1 && call.hasBuf ==> a == Answer(call.answer, []))
    && (call.ReadCall? && call.fd == 0 && call.hasBuf ==> a == Answer(call.device.answer, call.device.stored))
    && (call.CloseCall? && (call.fd == 0 || call.fd == 1) ==> a == Answer(-1, []))
  }

  lemma TerminalStep(disk: Disk, fda: Fda, call: SysCall, a: Result, fda': Fda)
    requires disk.Valid() && FdaOk(disk, fda) && Answers(disk, fda, call, a, fda') && OnDescriptors(call)
    requires Terminal(fda)
    ensures Terminal(fda') && TerminalAnswers(call, a)
  {
    FirstFreeIsLowest(fda, FILE_DESC_START_IDX);
    hide FdaOk, Openable;
  }

  lemma {:induction false} TerminalOnTable(disk: Disk, fda: Fda,
      calls: seq<SysCall>, trace: seq<Call>, results: seq<Result>, j: int)
    requires disk.Valid() && OnTable(disk, fda, calls, trace, results) && Terminal(fda) && 0 <= j < |calls|
    ensures |results| == |calls| && TerminalAnswers(calls[j], results[j])
    decreases |calls|
  {
    hide Disk.Valid, FdaOk, Answers, Terminal, TerminalAnswers, OnDescriptors;
    TerminalStep(disk, fda, calls[0], results[0], trace[0].fda);
    if j > 0 { TerminalOnTable(disk, trace[0].fda, calls[1..], trace[1..], results[1..], j - 1); }
  }

  // Whatever a program does on its descriptors, it keeps the terminal.
  lemma TerminalStays(disk: Disk, shell: seq<byte>, s: Machine, k: int,
      exec: SysCall, calls: seq<SysCall>, trace: seq<Call>, results: seq<Result>, j: int)
    requires disk.Valid() && Stacked(disk, s, k) && k > 0 && exec.ExecuteCall? && 0 <= j < |calls|
    requires Ran(disk, shell, s, k, [exec] + calls, trace, results) && results[0] == Executed
    requires forall i :: 0 <= i < |calls| ==> OnDescriptors(calls[i])
    ensures |results| == |calls| + 1 && TerminalAnswers(calls[j], results[j + 1])
  {
    hide OnDescriptors, TerminalAnswers, Stacked, Apply, Does;
    var run := [exec] + calls;
    assert run[0] == exec && run[1..] == calls;
    assert Does(disk, shell, s, k, run[0], trace[0], results[0]);
    NewProgram(disk, shell, s, k, exec, trace[0]);
    FreshTableIs(disk, shell, s, k, exec, trace[0]);
    var t := Apply(disk, s, k, trace[0]);
    assert Ran(disk, shell, t, k + 1, calls, trace[1..], results[1..]);
    hide Ran;
    RanOnTable(disk, shell, t, k + 1, calls, trace[1..], results[1..]);
    TerminalOnTable(disk, t.pcbs[k].fda, calls, trace[1..], results[1..], j);
  }

  // ----- reading a file -----

  // The descriptor is open on the file at the position.
  predicate OpenAt(fda: Fda, fd: int, fop: Ops, inode: int, pos: int) {
    && 0 <= fd < MAX_OPEN_FILES && fda[fd].flags == 1 && fda[fd].fop == fop && fda[fd].inode == inode
    && fda[fd].position == pos
  }

  // The next n bytes from a position, or all that are left.
  predicate NextBytes(file: seq<byte>, pos: int, n: int, bytes: seq<byte>) {
    0 <= pos <= |file| && 0 <= n && bytes == file[pos..Min(pos + n, |file|)]
  }

  lemma BytesGoOn(file: seq<byte>, pos: int, n: int, first: seq<byte>, more: int, later: seq<byte>)
    requires NextBytes(file, pos, n, first) && NextBytes(file, Min(pos + n, |file|), more, later)
    ensures NextBytes(file, pos, n + more, first + later)
  {}

  lemma FileStep(disk: Disk, fda: Fda, call: SysCall, a: Result, fda': Fda, fd: int, inode: int, pos: int)
    requires disk.Valid() && FdaOk(disk, fda) && Answers(disk, fda, call, a, fda') && KeepsOpen([call], fd)
    requires OpenAt(fda, fd, FileOps, inode, pos)
    requires 0 <= inode < |disk.inodes| && 0 <= pos <= |disk.Contents(inode)|
    ensures a.Answer?
    ensures var file := disk.Contents(inode);
      if IsRead(call, fd) then
        NextBytes(file, pos, call.n, a.bytes) && OpenAt(fda', fd, FileOps, inode, Min(pos + call.n, |file|))
      else OpenAt(fda', fd, FileOps, inode, pos)
  {
    assert [call][0] == call;
    OneCall(disk, fda, call, a, fda', fd);
    hide FdaOk, Answers, KeepsOpen;
  }

  // Whatever other calls come between, what is read from an open file is one stretch
  // of it, from the position on: as much as was asked for, or all that was left.
  lemma {:induction false} FileOnTable(disk: Disk, fda: Fda,
      calls: seq<SysCall>, trace: seq<Call>, results: seq<Result>, fd: int, inode: int, pos: int)
    requires disk.Valid() && OnTable(disk, fda, calls, trace, results) && KeepsOpen(calls, fd)
    requires OpenAt(fda, fd, FileOps, inode, pos)
    requires 0 <= inode < |disk.inodes| && 0 <= pos <= |disk.Contents(inode)|
    ensures |results| == |calls|
      && NextBytes(disk.Contents(inode), pos, Asked(calls, fd), BytesRead(calls, results, fd))
    decreases |calls|
  {
    hide *;
    LengthsAgree(disk, fda, calls, trace, results);
    var file := disk.Contents(inode);
    if calls == [] {
      NothingRead(file, pos, calls, results, fd);
    } else {
      FirstFromTable(disk, fda, calls, trace, results);
      FirstKept(calls, fd);
      FirstCounts(calls, results, fd);
      FileStep(disk, fda, calls[0], results[0], trace[0].fda, fd, inode, pos);
      var rest, later := calls[1..], results[1..];
      if IsRead(calls[0], fd) {
        var n, bytes := calls[0].n, results[0].bytes;
        NextWithin(file, pos, n, bytes);
        FileOnTable(disk, trace[0].fda, rest, trace[1..], later, fd, inode, Min(pos + n, |file|));
        BytesGoOn(file, pos, n, bytes, Asked(rest, fd), BytesRead(rest, later, fd));
      } else {
        FileOnTable(disk, trace[0].fda, rest, trace[1..], later, fd, inode, pos);
      }
    }
  }

  lemma NothingRead(file: seq<byte>, pos: int, calls: seq<SysCall>, results: seq<Result>, fd: int)
    requires 0 <= pos <= |file| && calls == [] && results == []
    ensures NextBytes(file, pos, Asked(calls, fd), BytesRead(calls, results, fd))
  {}

  lemma FirstCounts(calls: seq<SysCall>, results: seq<Result>, fd: int)
    requires |calls| == |results| > 0
    ensures IsRead(calls[0], fd) ==>
      calls[0].ReadCall? && Asked(calls, fd) == calls[0].n + Asked(calls[1..], fd)
    ensures IsRead(calls[0], fd) && results[0].Answer? ==>
      BytesRead(calls, results, fd) == results[0].bytes + BytesRead(calls[1..], results[1..], fd)
    ensures !IsRead(calls[0], fd) ==>
      && Asked(calls, fd) == Asked(calls[1..], fd)
      && BytesRead(calls, results, fd) == BytesRead(calls[1..], results[1..], fd)
  {}

  lemma NextWithin(file: seq<byte>, pos: int, n: int, bytes: seq<byte>)
    requires NextBytes(file, pos, n, bytes)
    ensures 0 <= Min(pos + n, |file|) <= |file|
  {}

  // A file that has just been opened is read from its start.
  lemma OpenedFile(disk: Disk, shell: seq<byte>, s: Machine, k: int,
      name: seq<byte>, i: int, calls: seq<SysCall>, trace: seq<Call>, results: seq<Result>)
    requires disk.Valid() && Stacked(disk, s, k) && k > 0 && Denotes(disk, name, i) && disk.entries[i].fileType == 2
    requires Ran(disk, shell, s, k, [OpenCall(name)] + calls, trace, results)
    requires results[0].Answer? && results[0].r != -1 && KeepsOpen(calls, results[0].r)
    ensures |results| == |calls| + 1
    ensures var fd, file := results[0].r, disk.Contents(disk.entries[i].inode);
      && 0 <= Asked(calls, fd)
      && BytesRead(calls, results[1..], fd) == file[..Min(Asked(calls, fd), |file|)]
  {
    OpenThen(disk, shell, s, k, name, i, calls, trace, results);
    hide Stacked, Ran, Denotes;
    FileOnTable(disk, trace[0].fda, calls, trace[1..], results[1..], results[0].r, disk.entries[i].inode, 0);
  }

  lemma OpenThen(disk: Disk, shell: seq<byte>, s: Machine, k: int,
      name: seq<byte>, i: int, calls: seq<SysCall>, trace: seq<Call>, results: seq<Result>)
    requires disk.Valid() && Stacked(disk, s, k) && k > 0 && Denotes(disk, name, i)
    requires Ran(disk, shell, s, k, [OpenCall(name)] + calls, trace, results)
    requires results[0].Answer? && results[0].r != -1 && KeepsOpen(calls, results[0].r)
    ensures |trace| == |results| == |calls| + 1 && trace[0].Update? && 0 <= disk.entries[i].fileType <= 2
    ensures OnTable(disk, trace[0].fda, calls, trace[1..], results[1..])
    ensures OpenAt(trace[0].fda, results[0].r,
      match disk.entries[i].fileType case 0 => RtcOps case 1 => DirOps case _ => FileOps, disk.entries[i].inode, 0)
  {
    var run := [OpenCall(name)] + calls;
    assert run[1..] == calls && run[0] == OpenCall(name);
    hide Denotes;
    RanOnTable(disk, shell, s, k, run, trace, results);
    var fda := s.pcbs[k - 1].fda;
    hide Stacked, Ran, FdaOk, OpenAnswers, KeepsOpen;
    OpenedTable(disk, fda, name, i, results[0].r, trace[0].fda);
  }

  // ----- listing a directory -----

  // What the read number m of a directory gives, counted from 0.
  ghost predicate GivesEntry(disk: Disk, m: int, beyond: Name, a: Result)
    requires disk.Valid() && 0 <= m
  {
    && a.Answer?
    && (m > disk.dirCount ==> a == Answer(-1, []))
    && (m <= disk.dirCount ==> NameStored(if m < NUM_MAX_FILES then disk.entries[m].name else beyond, a.r, a.bytes))
  }

  lemma GivesNoMore(disk: Disk, m: int, n: int, beyond: Name, a: Result)
    requires disk.Valid() && m > disk.dirCount && n > disk.dirCount && GivesEntry(disk, m, beyond, a)
    ensures GivesEntry(disk, n, beyond, a)
  {}

  lemma DirectoryEffect(disk: Disk, fda: Fda, fd: int, n: int, device: Device, beyond: Name)
    requires disk.Valid() && FdaOk(disk, fda) && 0 <= fd < MAX_OPEN_FILES && fda[fd].flags == 1 && fda[fd].fop == DirOps
    requires 0 <= fda[fd].position <= disk.dirCount + 1
    ensures var e, pos := ReadEffect(disk, fda, fd, true, n, device, beyond), fda[fd].position;
      GivesEntry(disk, pos, beyond, Answer(e.r, e.bytes)) && e.step == if pos <= disk.dirCount then 1 else 0
  {
    var pos := fda[fd].position;
    assert pos % 256 == pos;
    if pos <= disk.dirCount { Stored(EntryName(disk, beyond, pos)); }
    hide NameStored, Padded, Letters, FdaOk;
  }

  lemma DirectoryStep(disk: Disk, fda: Fda, call: SysCall, a: Result, fda': Fda, fd: int, inode: int, pos: int)
    requires disk.Valid() && FdaOk(disk, fda) && Answers(disk, fda, call, a, fda') && KeepsOpen([call], fd)
    requires OpenAt(fda, fd, DirOps, inode, pos) && 0 <= pos <= disk.dirCount + 1
    ensures if IsRead(call, fd) then
        GivesEntry(disk, pos, call.beyond, a)
          && OpenAt(fda', fd, DirOps, inode, if pos <= disk.dirCount then pos + 1 else pos)
      else OpenAt(fda', fd, DirOps, inode, pos)
  {
    assert [call][0] == call;
    OneCall(disk, fda, call, a, fda', fd);
    hide Answers, KeepsOpen, GivesEntry, ReadEffect;
    if call.ReadCall? { DirectoryEffect(disk, fda, fd, call.n, call.device, call.beyond); }
  }

  // Whatever other calls come between, the reads of an open directory give one entry
  // each, also the one past the last, and then -1.
  lemma {:induction false} DirectoryOnTable(disk: Disk, fda: Fda,
      calls: seq<SysCall>, trace: seq<Call>, results: seq<Result>, fd: int, inode: int, pos: int, j: int)
    requires disk.Valid() && OnTable(disk, fda, calls, trace, results) && KeepsOpen(calls, fd)
    requires OpenAt(fda, fd, DirOps, inode, pos)
    requires 0 <= pos <= disk.dirCount + 1 && 0 <= j < |calls| && calls[j].ReadCall? && calls[j].fd == fd
    ensures |results| == |calls| && GivesEntry(disk, pos + ReadsOf(calls[..j], fd), calls[j].beyond, results[j])
    decreases |calls|
  {
    hide *;
    ReadIs(calls[j], fd);
    FirstKept(calls, fd);
    ReadsBefore(calls, fd, j);
    FirstFromTable(disk, fda, calls, trace, results);
    DirectoryStep(disk, fda, calls[0], results[0], trace[0].fda, fd, inode, pos);
    if j > 0 {
      var rest, isRead := calls[1..], IsRead(calls[0], fd);
      var next, m := if isRead && pos <= disk.dirCount then pos + 1 else pos, ReadsOf(rest[..j - 1], fd);
      DirectoryOnTable(disk, trace[0].fda, rest, trace[1..], results[1..], fd, inode, next, j - 1);
      if isRead && pos > disk.dirCount {
        GivesNoMore(disk, next + m, pos + 1 + m, calls[j].beyond, results[j]);
      }
    }
  }

  lemma FirstKept(calls: seq<SysCall>, fd: int)
    requires calls != [] && KeepsOpen(calls, fd)
    ensures KeepsOpen([calls[0]], fd) && KeepsOpen(calls[1..], fd)
  {}

  lemma ReadsBefore(calls: seq<SysCall>, fd: int, j: int)
    requires 0 <= j < |calls|
    ensures j == 0 ==> ReadsOf(calls[..j], fd) == 0
    ensures j > 0 ==>
      ReadsOf(calls[..j], fd) == (if IsRead(calls[0], fd) then 1 else 0) + ReadsOf(calls[1..][..j - 1], fd)
  {
    if j > 0 { assert calls[..j][0] == calls[0] && calls[..j][1..] == calls[1..][..j - 1]; }
  }

  // A directory that has just been opened is listed from its first entry.
  lemma OpenedDirectory(disk: Disk, shell: seq<byte>, s: Machine, k: int,
      name: seq<byte>, i: int, calls: seq<SysCall>, trace: seq<Call>, results: seq<Result>, j: int)
    requires disk.Valid() && Stacked(disk, s, k) && k > 0 && Denotes(disk, name, i) && disk.entries[i].fileType == 1
    requires Ran(disk, shell, s, k, [OpenCall(name)] + calls, trace, results)
    requires results[0].Answer? && results[0].r != -1 && KeepsOpen(calls, results[0].r)
    requires 0 <= j < |calls| && calls[j].ReadCall? && calls[j].fd == results[0].r
    ensures |results| == |calls| + 1
    ensures GivesEntry(disk, ReadsOf(calls[..j], results[0].r), calls[j].beyond, results[j + 1])
  {
    OpenThen(disk, shell, s, k, name, i, calls, trace, results);
    hide Stacked, Ran, Denotes, GivesEntry;
    DirectoryOnTable(disk, trace[0].fda, calls, trace[1..], results[1..], results[0].r, disk.entries[i].inode, 0, j);
  }
}
