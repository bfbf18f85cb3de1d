// The processes of the kernel (syscall.c) as values: what execute and halt do to
// the process blocks, the kernel stack pointer and the program page, and what
// every run of system calls keeps.
module ProcessState {
  import opened Arith
  import opened FileSystem

  const MAX_PROCESSES := 5
  const END_OF_KERNEL_PAGE := 0x80_0000
  const KERNEL_STACK_SIZE := 0x2000
  const ASSIGN_PID_ERROR := -99
  const MAX_OPEN_FILES := 8
  const FILE_DESC_START_IDX := 2
  const MAGIC: seq<byte> := [0x7f, 0x45, 0x4c, 0x46]

  // The operation tables a descriptor can point to; Unset is the null pointer of
  // zeroed memory.
  datatype Ops = Unset | NullOps | StdinOps | StdoutOps | RtcOps | FileOps | DirOps

  datatype FileDescriptor = FileDescriptor(fop: Ops, inode: int, position: int, flags: int, fileType: int)

  type Fda = f: seq<FileDescriptor> | |f| == MAX_OPEN_FILES witness seq(8, _ => FileDescriptor(Unset, 0, 0, 0, 0))

  datatype Pcb = Pcb(active: int, pid: int, parentPid: int, fda: Fda, esp: int, ebp: int, tssEsp0: int, args: seq<byte>)

  // pcbObj is the address of the current process block.
  datatype Machine = Machine(pid: int, pcbObj: int, esp0: int, frame: int, pcbs: seq<Pcb>)

  // ----- addresses -----

  // find_PCB
  function FindPcb(pid: int): int { END_OF_KERNEL_PAGE - KERNEL_STACK_SIZE * (pid + 1) }

  // The process block at an address.
  function SlotOf(addr: int): int { (END_OF_KERNEL_PAGE - addr) / KERNEL_STACK_SIZE - 1 }

  lemma SlotOfPcb(pid: int)
    ensures SlotOf(FindPcb(pid)) == pid
  {}

  // The top of the kernel stack of a process.
  function StackTop(pid: int): int { FindPcb(pid - 1) - 4 }

  // What execute_paging_init(pid + 1) puts in the page directory.
  function FrameOf(pid: int): int { (0x80_0000 + 0x40_0000 * pid) / 4096 / 1024 * 1024 }

  // Two processes never share a program page or a kernel stack.
  lemma ProcessesApart(i: int, j: int)
    requires i < j
    ensures FrameOf(i) + 1024 <= FrameOf(j) && StackTop(j) + KERNEL_STACK_SIZE <= StackTop(i)
  {}

  // ----- loading a program -----

  // The program a name denotes, if it is an executable.
  ghost predicate Executable(disk: Disk, name: seq<byte>, inode: int)
    requires disk.Valid()
  {
    exists i :: Denotes(disk, name, i) && inode == disk.entries[i].inode
      && |disk.Contents(inode)| >= 4 && disk.Contents(inode)[..4] == MAGIC
  }

  ghost predicate Loadable(disk: Disk, name: seq<byte>)
    requires disk.Valid()
  {
    exists inode :: Executable(disk, name, inode)
  }

  // The program is copied to an address within a page of 4 MB; the next entry of the
  // page directory is not present.
  const PROGRAM_IMG_VIRT_ADDR := 0x0804_8000
  const SIZE_4MB := 0x40_0000
  const PROGRAM_IMG_PDE_INDEX := 32
  const PAGE_ROOM := 0x40_0000 - 0x4_8000

  // The address is in the page that execute_paging_init maps.
  predicate InProgramPage(addr: int) { addr / SIZE_4MB == PROGRAM_IMG_PDE_INDEX }

  // The copy of a program stays in its page exactly when the program is no longer
  // than the room there.
  lemma CopyStaysInPageIff(length: int)
    requires 0 <= length
    ensures
      (forall a :: PROGRAM_IMG_VIRT_ADDR <= a < PROGRAM_IMG_VIRT_ADDR + length ==> InProgramPage(a))
      <==> length <= PAGE_ROOM
  {
    assert !InProgramPage(PROGRAM_IMG_VIRT_ADDR + PAGE_ROOM);
  }

  // The program can be loaded and its copy stays in the page.
  ghost predicate Fits(disk: Disk, name: seq<byte>)
    requires disk.Valid()
  {
    exists inode ::
      Executable(disk, name, inode) && 0 <= inode < |disk.inodes| && disk.inodes[inode].length <= PAGE_ROOM
  }

  // An image with a program one byte too long for the page: all its blocks are the
  // same.
  function LongProgram(): Disk {
    Disk(1, seq(NUM_MAX_FILES, _ => Dentry(seq(NAME_SIZE, i => if i == 0 then 97 else 0), 2, 0)),
      [Inode(PAGE_ROOM + 1, seq(MAX_BLOCKS, _ => 0))], [MAGIC + seq(BLOCK_SIZE - 4, _ => 0)])
  }

  lemma ProgramTooLong()
    ensures var disk := LongProgram();
      disk.Valid() && Loadable(disk, [97]) && !Fits(disk, [97])
  {
    var disk := LongProgram();
    assert Letters([97], 0) == [97] + Letters([97], 1) == Letters(disk.entries[0].name, 0);
    assert Denotes(disk, [97], 0);
    forall i | 0 <= i < 4 ensures disk.Contents(0)[i] == MAGIC[i] { disk.ContentsByte(0, i); }
    assert disk.Contents(0)[..4] == MAGIC;
    assert Executable(disk, [97], 0);
    forall inode | Executable(disk, [97], inode) ensures inode == 0 {}
  }

  // Its directory has one entry, and lists two names.
  lemma OneNameTooMany(beyond: Name)
    ensures LongProgram().Valid() && LongProgram().dirCount == 1 && |Listing(LongProgram(), beyond, 0, 2)| == 2
  {
    ProgramTooLong();
    ListingIs(LongProgram(), beyond, 0, 2);
  }

  // ----- the invariant -----

  // A descriptor is marked unused exactly when its operations are the null ones;
  // an open file has a position within the file.
  predicate DescriptorOk(disk: Disk, f: FileDescriptor) {
    && (f.flags == 0 || f.flags == 1) && f.fop != Unset && (f.flags == 0 <==> f.fop == NullOps)
    && (f.fop == FileOps ==> 0 <= f.inode < |disk.inodes| && 0 <= f.position <= disk.inodes[f.inode].length)
  }

  ghost predicate FdaOk(disk: Disk, fda: Fda) {
    forall i :: 0 <= i < MAX_OPEN_FILES ==> DescriptorOk(disk, fda[i])
  }

  // k processes are running, one on top of the other; a block not in use holds no
  // saved registers.
  ghost predicate Stacked(disk: Disk, s: Machine, k: int) {
    && 0 <= k <= MAX_PROCESSES && |s.pcbs| == MAX_PROCESSES
    && (forall i :: 0 <= i < MAX_PROCESSES ==> s.pcbs[i].active == if i < k then 1 else 0)
    && (forall i :: k <= i < MAX_PROCESSES ==> s.pcbs[i].esp == 0 && s.pcbs[i].ebp == 0)
    && (forall i :: 0 <= i < k ==>
         s.pcbs[i].pid == i && s.pcbs[i].parentPid == i - 1 && s.pcbs[i].tssEsp0 == StackTop(i)
           && FdaOk(disk, s.pcbs[i].fda))
    && (k > 0 ==> s.pcbObj == FindPcb(k - 1) && s.esp0 == StackTop(k - 1) && s.frame == FrameOf(k - 1))
    && (k > 0 ==> s.pid == k - 1 || (k == MAX_PROCESSES && s.pid == ASSIGN_PID_ERROR))
  }

  // ----- execute -----

  // assign_PID: the first process block not in use.
  function AssignPid(pcbs: seq<Pcb>, i: int): int
    requires |pcbs| == MAX_PROCESSES && 0 <= i <= MAX_PROCESSES
    decreases MAX_PROCESSES - i
  {
    if i == MAX_PROCESSES then ASSIGN_PID_ERROR
    else if pcbs[i].active == 0 then i
    else AssignPid(pcbs, i + 1)
  }

  lemma {:induction false} AssignIsTop(disk: Disk, s: Machine, k: int, i: int)
    requires Stacked(disk, s, k) && 0 <= i <= k
    ensures AssignPid(s.pcbs, i) == if k == MAX_PROCESSES then ASSIGN_PID_ERROR else k
    decreases k - i
  {
    if i < k { AssignIsTop(disk, s, k, i + 1); }
  }

  // A fresh descriptor table: the terminal on 0 and 1, nothing else open.
  function FreshFda(was: Fda): Fda {
    seq(MAX_OPEN_FILES, i requires 0 <= i < MAX_OPEN_FILES =>
      if i == 0 then FileDescriptor(StdinOps, 0, 0, 1, 3)
      else if i == 1 then FileDescriptor(StdoutOps, 0, 0, 1, 3)
      else FileDescriptor(NullOps, 0, 0, 0, was[i].fileType))
  }

  // system_execute of a program that can be loaded.
  function Execute(s: Machine, args: seq<byte>, esp: int, ebp: int): Machine
    requires |s.pcbs| == MAX_PROCESSES
  {
    var p := AssignPid(s.pcbs, 0);
    if p == ASSIGN_PID_ERROR then s.(pid := ASSIGN_PID_ERROR)
    else if !(0 <= p < MAX_PROCESSES) then s
    else
      var pcb := Pcb(1, p, if p == 0 then -1 else s.pid, FreshFda(s.pcbs[p].fda), esp, ebp, StackTop(p), args);
      Machine(p, FindPcb(p), StackTop(p), FrameOf(p), s.pcbs[p := pcb])
  }

  // Where system_execute is while it copies the program: the process block is taken
  // and the program page mapped, and nothing else is set up.
  function Claimed(s: Machine, args: seq<byte>): Machine
    requires |s.pcbs| == MAX_PROCESSES
  {
    var p := AssignPid(s.pcbs, 0);
    if !(0 <= p < MAX_PROCESSES) then s
    else
      var pcb := s.pcbs[p].(active := 1, pid := p, parentPid := if p == 0 then -1 else s.pid, args := args);
      Machine(p, FindPcb(p), s.esp0, FrameOf(p), s.pcbs[p := pcb])
  }

  // ----- halt -----

  // What halt leaves in a process block.
  function Cleared(p: Pcb): Pcb {
    var fda := seq(MAX_OPEN_FILES,
      i requires 0 <= i < MAX_OPEN_FILES => FileDescriptor(NullOps, 0, 0, 0, p.fda[i].fileType));
    Pcb(0, p.pid, p.parentPid, fda, 0, 0, 0, [])
  }

  // system_halt of a process that has a parent.
  function Halt(s: Machine): Machine
    requires |s.pcbs| == MAX_PROCESSES && 0 <= SlotOf(s.pcbObj) < MAX_PROCESSES
  {
    var t := SlotOf(s.pcbObj);
    var parent := s.pcbs[t].parentPid;
    Machine(parent, FindPcb(parent), END_OF_KERNEL_PAGE - KERNEL_STACK_SIZE * parent - 4, FrameOf(parent),
      s.pcbs[t := Cleared(s.pcbs[t])])
  }

  // The base shell is not halted but started again.
  predicate IsBaseShell(s: Machine)
    requires |s.pcbs| == MAX_PROCESSES && 0 <= SlotOf(s.pcbObj) < MAX_PROCESSES
  {
    s.pid == 0 && s.pcbs[SlotOf(s.pcbObj)].parentPid == -1
  }

  // The base shell cleared away: only the flags of its descriptors are reset.
  function ShellClosed(s: Machine): Machine
    requires |s.pcbs| == MAX_PROCESSES && 0 <= SlotOf(s.pcbObj) < MAX_PROCESSES
  {
    var t := SlotOf(s.pcbObj);
    var p := s.pcbs[t];
    var fda := seq(MAX_OPEN_FILES, i requires 0 <= i < MAX_OPEN_FILES => p.fda[i].(flags := 0));
    var closed := p.(active := 0, ebp := 0, esp := 0, tssEsp0 := 0, args := [], fda := fda);
    s.(esp0 := END_OF_KERNEL_PAGE - 4, frame := FrameOf(-1), pcbs := s.pcbs[t := closed])
  }

  // ----- the calls on descriptors -----

  // Any call on a descriptor changes the current table only.
  function WithFda(s: Machine, fda: Fda): Machine
    requires |s.pcbs| == MAX_PROCESSES && 0 <= SlotOf(s.pcbObj) < MAX_PROCESSES
  {
    s.(pcbs := s.pcbs[SlotOf(s.pcbObj) := s.pcbs[SlotOf(s.pcbObj)].(fda := fda)])
  }

  // ----- what each call keeps -----

  // A program starts on top of the stack, or, with all five blocks in use, only
  // the process number is lost.
  lemma ExecuteKeeps(disk: Disk, s: Machine, k: int, args: seq<byte>, esp: int, ebp: int)
    requires Stacked(disk, s, k)
    ensures k < MAX_PROCESSES ==>
      Stacked(disk, Execute(s, args, esp, ebp), k + 1) && Execute(s, args, esp, ebp).pcbs[..k] == s.pcbs[..k]
    ensures k == MAX_PROCESSES ==>
      Stacked(disk, Execute(s, args, esp, ebp), k) && Execute(s, args, esp, ebp) == s.(pid := ASSIGN_PID_ERROR)
  {
    AssignIsTop(disk, s, k, 0);
  }

  // Halting pops the stack; the lost process number is repaired.
  lemma HaltKeeps(disk: Disk, s: Machine, k: int)
    requires Stacked(disk, s, k) && k > 1
    ensures 0 <= SlotOf(s.pcbObj) < MAX_PROCESSES && !IsBaseShell(s)
    ensures Stacked(disk, Halt(s), k - 1) && Halt(s).pid == k - 2 && Halt(s).pcbs[..k - 1] == s.pcbs[..k - 1]
  {
    SlotOfPcb(k - 1);
  }

  // A copy that leaves the page faults, and the handler of page faults halts the new
  // process: process number, kernel stack and program page are again those of the
  // caller, but the registers that halt returns through were never saved: both are 0.
  lemma FaultHalts(disk: Disk, s: Machine, k: int, args: seq<byte>)
    requires Stacked(disk, s, k) && 0 < k < MAX_PROCESSES
    ensures var c := Claimed(s, args);
      && |c.pcbs| == MAX_PROCESSES && SlotOf(c.pcbObj) == k && !IsBaseShell(c)
      && Stacked(disk, Halt(c), k) && Halt(c).pcbs[..k] == s.pcbs[..k] && Halt(c).pid == s.pid
      && c.pcbs[k].esp == 0 && c.pcbs[k].ebp == 0
  {
    AssignIsTop(disk, s, k, 0);
    SlotOfPcb(k);
    SlotOfPcb(k - 1);
  }

  // Halting the base shell starts it again, in the same place.
  lemma RestartKeeps(disk: Disk, s: Machine, args: seq<byte>, esp: int, ebp: int)
    requires Stacked(disk, s, 1)
    ensures SlotOf(s.pcbObj) == 0 && IsBaseShell(s)
    ensures Stacked(disk, Execute(ShellClosed(s), args, esp, ebp), 1)
  {
    SlotOfPcb(0);
    var c := ShellClosed(s);
    assert AssignPid(c.pcbs, 0) == 0;
  }

  lemma FdaKeeps(disk: Disk, s: Machine, k: int, fda: Fda)
    requires Stacked(disk, s, k) && k > 0 && FdaOk(disk, fda)
    ensures SlotOf(s.pcbObj) == k - 1 && Stacked(disk, WithFda(s, fda), k)
      && WithFda(s, fda).pcbs[..k - 1] == s.pcbs[..k - 1]
  {
    SlotOfPcb(k - 1);
  }

  // Memory starts zeroed: no process block is in use.
  lemma BootStacked(disk: Disk, s: Machine)
    requires |s.pcbs| == MAX_PROCESSES
    requires forall i :: 0 <= i < MAX_PROCESSES ==> s.pcbs[i].active == 0 && s.pcbs[i].esp == 0 && s.pcbs[i].ebp == 0
    ensures Stacked(disk, s, 0)
  {}

  // ----- runs -----

  // The system calls of a run.  Exec is of a program that can be loaded; Restart is
  // a halt of the base shell; Update is any call that works on the descriptors of
  // the running process.
  datatype Call =
    | Exec(args: seq<byte>, esp: int, ebp: int)
    | ExecFails
    | HaltNow
    | Restart(args: seq<byte>, esp: int, ebp: int)
    | Update(fda: Fda)

  // The effect of a call on k running processes: how many run afterwards.
  function DepthAfter(k: int, c: Call): int {
    match c
    case Exec(_, _, _) => if k < MAX_PROCESSES then k + 1 else k
    case HaltNow => k - 1
    case _ => k
  }

  ghost predicate Allowed(disk: Disk, k: int, c: Call) {
    match c
    case HaltNow => k > 1
    case Restart(_, _, _) => k == 1
    case Update(fda) => k > 0 && FdaOk(disk, fda)
    case _ => true
  }

  ghost function Apply(disk: Disk, s: Machine, k: int, c: Call): Machine
    requires Stacked(disk, s, k) && Allowed(disk, k, c)
  {
    match c
    case Exec(args, esp, ebp) => Execute(s, args, esp, ebp)
    case ExecFails => s
    case HaltNow => HaltKeeps(disk, s, k); Halt(s)
    case Restart(args, esp, ebp) => RestartKeeps(disk, s, args, esp, ebp); Execute(ShellClosed(s), args, esp, ebp)
    case Update(fda) => FdaKeeps(disk, s, k, fda); WithFda(s, fda)
  }

  predicate SameButFda(a: Pcb, b: Pcb) { a == b.(fda := a.fda) }

  lemma ApplyKeeps(disk: Disk, s: Machine, k: int, c: Call)
    requires Stacked(disk, s, k) && Allowed(disk, k, c)
    ensures Stacked(disk, Apply(disk, s, k, c), DepthAfter(k, c))
    ensures forall d :: 0 <= d < k && d < DepthAfter(k, c) && !c.Restart? ==>
      SameButFda(Apply(disk, s, k, c).pcbs[d], s.pcbs[d])
    ensures forall d :: 0 <= d < k - 1 && d < DepthAfter(k, c) ==> Apply(disk, s, k, c).pcbs[d] == s.pcbs[d]
  {
    match c
    case Exec(args, esp, ebp) => ExecuteKeeps(disk, s, k, args, esp, ebp);
    case ExecFails =>
    case HaltNow => HaltKeeps(disk, s, k);
    case Restart(args, esp, ebp) => RestartKeeps(disk, s, args, esp, ebp);
    case Update(fda) => FdaKeeps(disk, s, k, fda);
  }

  // A run during which more than `floor` processes are always running.
  ghost predicate RunsAbove(disk: Disk, floor: int, k: int, calls: seq<Call>)
    decreases |calls|
  {
    && k > floor
    && (calls != [] ==>
         Allowed(disk, k, calls[0]) && RunsAbove(disk, floor, DepthAfter(k, calls[0]), calls[1..]))
  }

  function DepthAfterAll(k: int, calls: seq<Call>): int
    decreases |calls|
  {
    if calls == [] then k else DepthAfterAll(DepthAfter(k, calls[0]), calls[1..])
  }

  ghost function ApplyAll(disk: Disk, s: Machine, k: int, floor: int, calls: seq<Call>): Machine
    requires Stacked(disk, s, k) && RunsAbove(disk, floor, k, calls)
    decreases |calls|
  {
    if calls == [] then s
    else
      ApplyKeeps(disk, s, k, calls[0]);
      ApplyAll(disk, Apply(disk, s, k, calls[0]), DepthAfter(k, calls[0]), floor, calls[1..])
  }

  // Whatever the processes above do, the stack discipline holds and the blocks of
  // the first `floor` processes, their descriptor tables included, are untouched.
  lemma {:induction false} RunKeeps(disk: Disk, s: Machine, k: int, floor: int, calls: seq<Call>)
    requires Stacked(disk, s, k) && RunsAbove(disk, floor, k, calls) && floor >= 0
    ensures Stacked(disk, ApplyAll(disk, s, k, floor, calls), DepthAfterAll(k, calls))
    ensures DepthAfterAll(k, calls) > floor
    ensures forall d :: 0 <= d < floor ==> ApplyAll(disk, s, k, floor, calls).pcbs[d] == s.pcbs[d]
    ensures floor > 0 ==> SameButFda(ApplyAll(disk, s, k, floor, calls).pcbs[floor], s.pcbs[floor])
    decreases |calls|
  {
    if calls != [] {
      ApplyKeeps(disk, s, k, calls[0]);
      RunKeeps(disk, Apply(disk, s, k, calls[0]), DepthAfter(k, calls[0]), floor, calls[1..]);
    }
  }

  // What the run reaches does not depend on the floor it stays above.
  lemma {:induction false} LowerFloor(disk: Disk, s: Machine, k: int, floor: int, calls: seq<Call>)
    requires Stacked(disk, s, k) && RunsAbove(disk, floor, k, calls) && floor >= 0
    ensures RunsAbove(disk, 0, k, calls) && ApplyAll(disk, s, k, floor, calls) == ApplyAll(disk, s, k, 0, calls)
    decreases |calls|
  {
    hide Stacked, Apply;
    if calls != [] {
      ApplyKeeps(disk, s, k, calls[0]);
      LowerFloor(disk, Apply(disk, s, k, calls[0]), DepthAfter(k, calls[0]), floor, calls[1..]);
    }
  }

  // One more call at the end of a run.
  lemma {:induction false} RunMore(disk: Disk, s: Machine, k: int, floor: int, calls: seq<Call>, c: Call)
    requires Stacked(disk, s, k) && RunsAbove(disk, floor, k, calls) && floor >= 0
    requires Allowed(disk, DepthAfterAll(k, calls), c) && DepthAfter(DepthAfterAll(k, calls), c) > floor
    ensures RunsAbove(disk, floor, k, calls + [c])
    ensures Stacked(disk, ApplyAll(disk, s, k, floor, calls), DepthAfterAll(k, calls))
    ensures ApplyAll(disk, s, k, floor, calls + [c])
      == Apply(disk, ApplyAll(disk, s, k, floor, calls), DepthAfterAll(k, calls), c)
    ensures DepthAfterAll(k, calls + [c]) == DepthAfter(DepthAfterAll(k, calls), c)
    decreases |calls|
  {
    hide Stacked, Apply;
    if calls == [] {
      assert calls + [c] == [c];
      ApplyKeeps(disk, s, k, c);
    } else {
      ApplyKeeps(disk, s, k, calls[0]);
      assert (calls + [c])[1..] == calls[1..] + [c];
      RunMore(disk, Apply(disk, s, k, calls[0]), DepthAfter(k, calls[0]), floor, calls[1..], c);
    }
  }

  // Between an execute and its matching halt any calls may be made; afterwards the
  // machine is back where the program was executed: the same current process, the
  // same kernel stack pointer and program page, and every process block of the
  // programs below as it was.  The stack and frame pointers that halt returns
  // through are those saved by the execute.
  lemma ExecuteHaltRoundTrip(disk: Disk, s: Machine, k: int, args: seq<byte>, esp: int, ebp: int, calls: seq<Call>)
    requires Stacked(disk, s, k) && 0 < k < MAX_PROCESSES
    requires RunsAbove(disk, k, k + 1, calls) && DepthAfterAll(k + 1, calls) == k + 1
    ensures Stacked(disk, Execute(s, args, esp, ebp), k + 1)
    ensures var t := ApplyAll(disk, Execute(s, args, esp, ebp), k + 1, k, calls);
      && 0 <= SlotOf(t.pcbObj) < MAX_PROCESSES && |t.pcbs| == MAX_PROCESSES
      && Halt(t).pid == s.pid && Halt(t).pcbObj == s.pcbObj && Halt(t).esp0 == s.esp0 && Halt(t).frame == s.frame
      && Halt(t).pcbs[..k] == s.pcbs[..k] && Stacked(disk, Halt(t), k)
      && SlotOf(t.pcbObj) == k && t.pcbs[k].esp == esp && t.pcbs[k].ebp == ebp
  {
    ExecuteKeeps(disk, s, k, args, esp, ebp);
    var s1 := Execute(s, args, esp, ebp);
    RunKeeps(disk, s1, k + 1, k, calls);
    var t := ApplyAll(disk, s1, k + 1, k, calls);
    HaltKeeps(disk, t, k + 1);
    assert s1.pcbs[..k] == s.pcbs[..k];
    forall d | 0 <= d < k ensures t.pcbs[d] == s.pcbs[d] {
      assert s1.pcbs[..k][d] == s1.pcbs[d] && s.pcbs[..k][d] == s.pcbs[d];
    }
  }

  // ----- descriptors -----

  // The lowest descriptor that open may hand out.
  function FirstFree(fda: Fda, i: int): int
    requires FILE_DESC_START_IDX <= i <= MAX_OPEN_FILES
    decreases MAX_OPEN_FILES - i
  {
    if i == MAX_OPEN_FILES then -1
    else if fda[i].flags == 0 then i
    else FirstFree(fda, i + 1)
  }

  // FirstFree is -1 exactly when all are in use, and otherwise the lowest unused.
  lemma {:induction false} FirstFreeIsLowest(fda: Fda, i: int)
    requires FILE_DESC_START_IDX <= i <= MAX_OPEN_FILES
    ensures var r := FirstFree(fda, i);
      if r == -1 then forall j :: i <= j < MAX_OPEN_FILES ==> fda[j].flags != 0
      else i <= r < MAX_OPEN_FILES && fda[r].flags == 0 && forall j :: i <= j < r ==> fda[j].flags != 0
    decreases MAX_OPEN_FILES - i
  {
    if i < MAX_OPEN_FILES && fda[i].flags != 0 { FirstFreeIsLowest(fda, i + 1); }
  }

  // The entry that open works on: named, and of a type it knows.
  ghost predicate Openable(disk: Disk, name: seq<byte>, i: int)
    requires disk.Valid()
  {
    Denotes(disk, name, i) && 0 <= disk.entries[i].fileType <= 2
  }

  function OpsOf(fileType: int): Ops
    requires 0 <= fileType <= 2
  {
    if fileType == 0 then RtcOps else if fileType == 1 then DirOps else FileOps
  }

  function Opened(fda: Fda, fd: int, fileType: int, inode: int): Fda
    requires 0 <= fd < MAX_OPEN_FILES && 0 <= fileType <= 2
  {
    fda[fd := FileDescriptor(OpsOf(fileType), inode, 0, 1, fileType)]
  }

  function Closed(fda: Fda, fd: int): Fda
    requires 0 <= fd < MAX_OPEN_FILES
  {
    fda[fd := FileDescriptor(NullOps, 0, 0, 0, fda[fd].fileType)]
  }

  function Moved(fda: Fda, fd: int, n: int): Fda
    requires 0 <= fd < MAX_OPEN_FILES
  {
    fda[fd := fda[fd].(position := fda[fd].position + n)]
  }

  // Reading moves the position within the file.
  lemma MovedOk(disk: Disk, fda: Fda, fd: int, n: int)
    requires disk.Valid() && FdaOk(disk, fda) && 0 <= fd < MAX_OPEN_FILES && fda[fd].fop == FileOps && n > 0
    ensures 0 <= fda[fd].inode < |disk.inodes| && 0 <= fda[fd].position <= |disk.Contents(fda[fd].inode)|
    ensures FdaOk(disk, Moved(fda, fd, |Slice(disk.Contents(fda[fd].inode), fda[fd].position, n)|))
  {
    assert DescriptorOk(disk, fda[fd]);
  }

  // Opening and then closing gives back an unused descriptor; both keep the table
  // in order.
  lemma OpenClose(disk: Disk, fda: Fda, fd: int, fileType: int, inode: int)
    requires FdaOk(disk, fda) && 0 <= fd < MAX_OPEN_FILES && 0 <= fileType <= 2 && fda[fd].flags == 0
    requires 0 <= inode < |disk.inodes| && 0 <= disk.inodes[inode].length
    ensures FdaOk(disk, Opened(fda, fd, fileType, inode)) && FdaOk(disk, Closed(fda, fd))
    ensures forall i :: 0 <= i < MAX_OPEN_FILES && i != fd ==> Closed(Opened(fda, fd, fileType, inode), fd)[i] == fda[i]
    ensures fd >= FILE_DESC_START_IDX && FirstFree(fda, FILE_DESC_START_IDX) == fd
      ==> FirstFree(Closed(Opened(fda, fd, fileType, inode), fd), FILE_DESC_START_IDX) == fd
  {
    var after := Closed(Opened(fda, fd, fileType, inode), fd);
    FirstFreeIsLowest(fda, FILE_DESC_START_IDX);
    FirstFreeIsLowest(after, FILE_DESC_START_IDX);
  }

  // What a write through an operation table returns; `device` is what the terminal
  // or the clock answers.
  function WriteResult(fop: Ops, device: int): int {
    match fop
    case StdoutOps => device
    case RtcOps => device
    case _ => -1
  }

  // A write to an unused descriptor fails although write never looks at the flag.
  lemma ClosedWriteFails(disk: Disk, fda: Fda, fd: int, device: int)
    requires FdaOk(disk, fda) && 0 <= fd < MAX_OPEN_FILES && fda[fd].flags == 0
    ensures WriteResult(fda[fd].fop, device) == -1
  {
    assert DescriptorOk(disk, fda[fd]);
  }
}
