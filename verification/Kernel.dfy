// The system calls of syscall.c on the kernel's global state.
module KernelModule {
  import opened Arith
  import opened FileSystem
  import opened ProcessState
  import opened SystemCalls

  datatype ExecuteOutcome =
    | Entered     // the program is entered
    | Failed      // execute returns -1
    | Faulted     // the copy of the program leaves its page: a page fault

  datatype HaltOutcome =
    | Returned(esp: int, ebp: int, status: int)   // back in the parent's execute
    | Restarted                                   // the base shell runs again
    | NoShell                                     // the base shell cannot be loaded
    | ShellFaulted                                // its copy leaves the page

  class Kernel {
    const disk: Disk
    const image: array<byte>     // the program page, from where programs are copied to
    const pcbs: array<Pcb>
    var pid: int
    var pcbObj: int
    var esp0: int                // tss.esp0
    var frame: int               // the page directory entry of the program page

    ghost predicate Valid()
      reads this
    {
      disk.Valid() && image.Length == PAGE_ROOM && pcbs.Length == MAX_PROCESSES
    }

    ghost function Now(): Machine
      reads this, pcbs
    {
      Machine(pid, pcbObj, esp0, frame, pcbs[..])
    }

    constructor (image0: Disk)
      requires image0.Valid()
      ensures Valid() && disk == image0 && Stacked(disk, Now(), 0) && fresh(pcbs) && fresh(image)
    {
      disk := image0;
      image := new byte[PAGE_ROOM](_ => 0);
      var zeroed: Fda := seq(MAX_OPEN_FILES, _ => FileDescriptor(Unset, 0, 0, 0, 0));
      pcbs := new Pcb[MAX_PROCESSES](_ => Pcb(0, 0, 0, zeroed, 0, 0, 0, []));
      pid, pcbObj, esp0, frame := 0, 0, 0, 0;
      new;
      BootStacked(disk, Now());
    }

    // assign_PID
    method AssignPID() returns (p: int)
      requires Valid()
      ensures p == AssignPid(pcbs[..], 0)
    {
      var i := 0;
      while i < MAX_PROCESSES
        invariant 0 <= i <= MAX_PROCESSES && AssignPid(pcbs[..], 0) == AssignPid(pcbs[..], i)
      {
        if pcbs[SlotOf(FindPcb(i))].active == 0 {
          return i;
        }
        i := i + 1;
      }
      return ASSIGN_PID_ERROR;
    }

    // The checks of execute before anything is changed: the program's file, or -1.
    method FindProgram(name: seq<byte>) returns (inode: int)
      requires Valid()
      ensures inode == -1 <==> !Loadable(disk, name)
      ensures inode != -1 ==> Executable(disk, name, inode) && 0 <= inode < |disk.inodes|
    {
      var r, entry := ReadDentryByName(disk, name);
      if r != 0 {
        NotDenoted(disk, name);
        return -1;
      }
      inode := entry.inode;
      ghost var i :| Denotes(disk, name, i) && entry == disk.entries[i];
      DenotesOne(disk, name, i);
      assert forall e :: Executable(disk, name, e) ==> e == inode;
      var bytes := new byte[4];
      var n := ReadData(disk, inode, 0, bytes, 4);
      if n != 4 {
        return -1;
      }
      assert bytes[..4] == disk.Contents(inode)[..4];
      var j := 0;
      while j < 4
        invariant 0 <= j <= 4 && bytes[..j] == MAGIC[..j]
      {
        if bytes[j] != MAGIC[j] {
          assert bytes[..4][j] != MAGIC[j];
          return -1;
        }
        j := j + 1;
      }
      assert bytes[..4] == MAGIC;
      assert Executable(disk, name, inode);
    }

    // system_execute, up to the switch to the program.  A program longer than the
    // room in its page is copied up to the end of the page, and faults there.
    // Otherwise it is always copied whole: the failure return after the copy is
    // never taken.
    method SystemExecute(name: seq<byte>, args: seq<byte>, esp: int, ebp: int) returns (r: ExecuteOutcome)
      requires Valid()
      modifies this, pcbs, image
      ensures Valid()
      ensures r == Failed <==> !Loadable(disk, name) || AssignPid(old(pcbs[..]), 0) == ASSIGN_PID_ERROR
      ensures r == Entered <==> Fits(disk, name) && AssignPid(old(pcbs[..]), 0) != ASSIGN_PID_ERROR
      ensures !Loadable(disk, name) ==> Now() == old(Now())
      ensures Loadable(disk, name) && r != Faulted ==> Now() == Execute(old(Now()), args, esp, ebp)
      ensures r == Faulted ==> Now() == Claimed(old(Now()), args)
      ensures r == Entered ==> exists inode ::
        Executable(disk, name, inode) && |disk.Contents(inode)| <= PAGE_ROOM
          && image[..|disk.Contents(inode)|] == disk.Contents(inode)
      ensures r == Faulted ==> exists inode ::
        Executable(disk, name, inode) && |disk.Contents(inode)| > PAGE_ROOM
          && image[..] == disk.Contents(inode)[..PAGE_ROOM]
      ensures r == Failed ==> image[..] == old(image[..])
    {
      var parent := pid;
      var inode := FindProgram(name);
      FitsLength(disk, name, inode);
      hide Executable, Loadable, Fits, FreshFda;
      if inode == -1 {
        return Failed;
      }
      pid := AssignPID();
      AssignRange(pcbs[..], 0);
      if pid == ASSIGN_PID_ERROR {
        return Failed;
      }
      Claim(parent, args);
      assert Now() == Claimed(old(Now()), args);
      var faulted := Load(inode, esp, ebp);
      if faulted {
        return Faulted;
      }
      assert Now() == Execute(old(Now()), args, esp, ebp);
      return Entered;
    }

    // The process block of the new process, and its page.
    method Claim(parent: int, args: seq<byte>)
      requires Valid() && 0 <= pid < MAX_PROCESSES
      modifies `pcbObj, `frame, pcbs
      ensures pcbObj == FindPcb(pid) && SlotOf(pcbObj) == pid && frame == FrameOf(pid)
      ensures
        var p := old(pcbs[pid]);
        pcbs[..] == old(pcbs[..])[pid := p.(pid := pid, parentPid := if pid == 0 then -1 else parent, active := 1,
          args := args)]
    {
      pcbObj := FindPcb(pid);
      SlotOfPcb(pid);
      var t := SlotOf(pcbObj);
      pcbs[t] := pcbs[t].(pid := pid, parentPid := if pid == 0 then -1 else parent, active := 1, args := args);
      frame := FrameOf(pid);
    }

    // Copies the program and sets up the rest.
    method Load(inode: int, esp: int, ebp: int) returns (faulted: bool)
      requires Valid() && 0 <= pid < MAX_PROCESSES && 0 <= inode < |disk.inodes|
      modifies `esp0, pcbs, image
      ensures faulted <==> disk.inodes[inode].length > PAGE_ROOM
      ensures faulted ==>
        esp0 == old(esp0) && pcbs[..] == old(pcbs[..]) && image[..] == disk.Contents(inode)[..PAGE_ROOM]
      ensures !faulted ==> image[..|disk.Contents(inode)|] == disk.Contents(inode) && esp0 == StackTop(pid)
      ensures !faulted ==>
        var p := old(pcbs[pid]);
        pcbs[..] == old(pcbs[..])[pid := p.(fda := FreshFda(p.fda), tssEsp0 := esp0, ebp := ebp, esp := esp)]
    {
      var length := disk.inodes[inode].length;
      if length > image.Length {
        // as far as the page goes
        var n := ReadData(disk, inode, 0, image, image.Length);
        assert image[..] == image[..n];
        return true;
      }
      var n := ReadData(disk, inode, 0, image, length);
      if n != length {
        assert false;
      }
      SetUp(pid, esp, ebp);
      return false;
    }

    // The rest of execute: descriptors, kernel stack and saved registers.
    method SetUp(t: int, esp: int, ebp: int)
      requires Valid() && 0 <= t < MAX_PROCESSES
      modifies `esp0, pcbs
      ensures esp0 == StackTop(pid)
      ensures
        var p := old(pcbs[t]);
        pcbs[..] == old(pcbs[..])[t := p.(fda := FreshFda(p.fda), tssEsp0 := esp0, ebp := ebp, esp := esp)]
    {
      var fda: Fda := FreshTable(pcbs[t].fda);
      pcbs[t] := pcbs[t].(fda := fda);
      esp0 := FindPcb(pid - 1) - 4;
      pcbs[t] := pcbs[t].(tssEsp0 := esp0, ebp := ebp, esp := esp);
    }

    // The two loops of execute that set up a descriptor table.
    method FreshTable(was: Fda) returns (fda: Fda)
      ensures fda == FreshFda(was)
    {
      fda := was;
      var i := 0;
      while i < MAX_OPEN_FILES
        invariant 0 <= i <= MAX_OPEN_FILES
        invariant forall j :: 0 <= j < i ==> fda[j] == FileDescriptor(NullOps, 0, 0, 0, was[j].fileType)
        invariant forall j :: i <= j < MAX_OPEN_FILES ==> fda[j] == was[j]
      {
        fda := fda[i := fda[i].(fop := NullOps, inode := 0, position := 0, flags := 0)];
        i := i + 1;
      }
      fda := fda[0 := fda[0].(fop := StdinOps, fileType := 3, flags := 1)];
      fda := fda[1 := fda[1].(fop := StdoutOps, fileType := 3, flags := 1)];
    }

    // system_halt.  When the base shell halts it is executed again, under the saved
    // registers given.  When that fails the state is the one at that moment.
    method SystemHalt(status: int, shell: seq<byte>, esp: int, ebp: int, ghost k: int) returns (r: HaltOutcome)
      requires Valid() && Stacked(disk, Now(), k) && k > 0 && 0 <= status <= 255
      modifies this, pcbs, image
      ensures Valid()
      ensures r.Returned? <==> k > 1
      ensures k == 1 ==> (r == Restarted <==> Fits(disk, shell)) && (r == NoShell <==> !Loadable(disk, shell))
      ensures r.Returned? ==>
        0 <= SlotOf(old(Now()).pcbObj) < MAX_PROCESSES && Now() == Halt(old(Now())) && Stacked(disk, Now(), k - 1)
      ensures r.Returned? ==> r.esp == old(pcbs[k - 1].esp) && r.ebp == old(pcbs[k - 1].ebp)
      ensures r.Returned? ==> r.status == if status == 255 then 256 else status
      ensures r == Restarted ==> Stacked(disk, Now(), 1)
      ensures !r.Returned? ==> 0 <= SlotOf(old(Now()).pcbObj) < MAX_PROCESSES
      ensures r == Restarted ==> Now() == Execute(ShellClosed(old(Now())), [], esp, ebp)
      ensures r == NoShell ==> Now() == ShellClosed(old(Now()))
      ensures r == ShellFaulted ==> Now() == Claimed(ShellClosed(old(Now())), [])
    {
      SlotOfPcb(k - 1);
      var t := SlotOf(pcbObj);
      var savedEbp, savedEsp := pcbs[t].ebp, pcbs[t].esp;
      if pid == 0 && pcbs[t].parentPid == -1 {
        RestartKeeps(disk, Now(), [], esp, ebp);
        var i := 0;
        var p := pcbs[t].(active := 0, ebp := 0, esp := 0, tssEsp0 := 0, args := []);
        while i < MAX_OPEN_FILES
          invariant 0 <= i <= MAX_OPEN_FILES
          invariant p == old(pcbs[t]).(active := 0, ebp := 0, esp := 0, tssEsp0 := 0, args := [], fda := p.fda)
          invariant forall j :: 0 <= j < i ==> p.fda[j] == old(pcbs[t]).fda[j].(flags := 0)
          invariant forall j :: i <= j < MAX_OPEN_FILES ==> p.fda[j] == old(pcbs[t]).fda[j]
        {
          p := p.(fda := p.fda[i := p.fda[i].(flags := 0)]);
          i := i + 1;
        }
        pcbs[t] := p;
        esp0 := END_OF_KERNEL_PAGE - 4;
        frame := FrameOf(-1);
        assert p.fda == seq(MAX_OPEN_FILES, j requires 0 <= j < MAX_OPEN_FILES => old(pcbs[t]).fda[j].(flags := 0));
        assert Now() == ShellClosed(old(Now()));
        AssignIsZero(pcbs[..]);
        var e := SystemExecute(shell, [], esp, ebp);
        return match e case Entered => Restarted case Failed => NoShell case Faulted => ShellFaulted;
      }
      assert k > 1;
      HaltKeeps(disk, Now(), k);
      var parent := pcbs[t].parentPid;
      var parentPtr := FindPcb(parent);
      var p := pcbs[t].(active := 0, ebp := 0, esp := 0, tssEsp0 := 0, args := []);
      esp0 := END_OF_KERNEL_PAGE - KERNEL_STACK_SIZE * parent - 4;
      frame := FrameOf(parent);
      var i := 0;
      while i < MAX_OPEN_FILES
        invariant 0 <= i <= MAX_OPEN_FILES
        invariant p == old(pcbs[t]).(active := 0, ebp := 0, esp := 0, tssEsp0 := 0, args := [], fda := p.fda)
        invariant forall j :: 0 <= j < i ==> p.fda[j] == FileDescriptor(NullOps, 0, 0, 0, old(pcbs[t]).fda[j].fileType)
        invariant forall j :: i <= j < MAX_OPEN_FILES ==> p.fda[j] == old(pcbs[t]).fda[j]
      {
        p := p.(fda := p.fda[i := p.fda[i].(flags := 0, inode := 0, position := 0, fop := NullOps)]);
        i := i + 1;
      }
      pcbs[t] := p;
      pid := parent;
      pcbObj := parentPtr;
      assert p.fda == Cleared(old(pcbs[t])).fda;
      assert Now() == Halt(old(Now()));
      return Returned(savedEsp, savedEbp, if status == 255 then status + 1 else status);
    }

    // The descriptors of the running process.
    ghost function Table(k: int): Fda
      requires Valid() && 0 < k <= MAX_PROCESSES
      reads this, pcbs
    {
      pcbs[k - 1].fda
    }

    // system_open: the lowest unused descriptor from 2 on, now open on the file.
    method SystemOpen(name: seq<byte>, ghost k: int) returns (fd: int)
      requires Valid() && Stacked(disk, Now(), k) && k > 0
      modifies pcbs
      ensures Stacked(disk, Now(), k)
      ensures fd == -1 <==> FirstFree(old(Table(k)), FILE_DESC_START_IDX) == -1 || forall i :: !Openable(disk, name, i)
      ensures fd == -1 ==> Now() == old(Now())
      ensures fd != -1 ==> fd == FirstFree(old(Table(k)), FILE_DESC_START_IDX) && 2 <= fd < MAX_OPEN_FILES
      ensures fd != -1 ==>
        exists i :: Openable(disk, name, i) && OpenedFor(old(Now()), Now(), old(Table(k)), fd, disk.entries[i])
    {
      SlotOfPcb(k - 1);
      var t := SlotOf(pcbObj);
      var r, entry := ReadDentryByName(disk, name);
      if r != 0 {
        NotDenoted(disk, name);
        return -1;
      }
      ghost var e :| Denotes(disk, name, e) && entry == disk.entries[e];
      DenotesOne(disk, name, e);
      if entry.fileType == 0 || entry.fileType == 1 || entry.fileType == 2 {
        fd := FILE_DESC_START_IDX;
        while fd < MAX_OPEN_FILES
          invariant FILE_DESC_START_IDX <= fd <= MAX_OPEN_FILES
          invariant FirstFree(pcbs[t].fda, FILE_DESC_START_IDX) == FirstFree(pcbs[t].fda, fd)
        {
          if pcbs[t].fda[fd].flags == 0 {
            var ops := if entry.fileType == 0 then RtcOps else if entry.fileType == 1 then DirOps else FileOps;
            OpenClose(disk, pcbs[t].fda, fd, entry.fileType, entry.inode);
            FdaKeeps(disk, Now(), k, Opened(pcbs[t].fda, fd, entry.fileType, entry.inode));
            pcbs[t] := pcbs[t].(fda := pcbs[t].fda[fd := FileDescriptor(ops, entry.inode, 0, 1, entry.fileType)]);
            assert Now() == WithFda(old(Now()), Opened(old(Table(k)), fd, entry.fileType, entry.inode));
            assert Openable(disk, name, e) && OpenedFor(old(Now()), Now(), old(Table(k)), fd, disk.entries[e]);
            FirstFreeIsLowest(old(Table(k)), FILE_DESC_START_IDX);
            return fd;
          }
          fd := fd + 1;
        }
      }
      assert forall i :: Openable(disk, name, i) ==> i == e;
      return -1;
    }

    // system_close
    method SystemClose(fd: int, ghost k: int) returns (r: int)
      requires Valid() && Stacked(disk, Now(), k) && k > 0
      modifies pcbs
      ensures Stacked(disk, Now(), k)
      ensures r == if FILE_DESC_START_IDX <= fd < MAX_OPEN_FILES && old(Table(k))[fd].flags != 0 then 0 else -1
      ensures r == 0 ==> Now() == WithFda(old(Now()), Closed(old(Table(k)), fd))
      ensures r == -1 ==> Now() == old(Now())
    {
      SlotOfPcb(k - 1);
      var t := SlotOf(pcbObj);
      if fd < FILE_DESC_START_IDX || fd > MAX_OPEN_FILES - 1 {
        return -1;
      }
      if pcbs[t].fda[fd].flags == 0 {
        return -1;
      }
      FdaKeeps(disk, Now(), k, Closed(pcbs[t].fda, fd));
      var f := pcbs[t].fda[fd].(inode := 0, flags := 0, position := 0, fop := NullOps);
      pcbs[t] := pcbs[t].(fda := pcbs[t].fda[fd := f]);
      assert Now() == WithFda(old(Now()), Closed(old(Table(k)), fd));
      return 0;
    }

    // file_position += num_bytes_read
    method MovePosition(fd: int, n: int, ghost k: int)
      requires Valid() && Stacked(disk, Now(), k) && k > 0 && 0 <= fd < MAX_OPEN_FILES
      requires FdaOk(disk, Moved(Table(k), fd, n))
      modifies pcbs
      ensures Stacked(disk, Now(), k) && Now() == WithFda(old(Now()), Moved(old(Table(k)), fd, n))
    {
      hide FdaOk;
      SlotOfPcb(k - 1);
      var t := SlotOf(pcbObj);
      FdaKeeps(disk, Now(), k, Moved(Table(k), fd, n));
      pcbs[t] := pcbs[t].(fda := pcbs[t].fda[fd := pcbs[t].fda[fd].(position := pcbs[t].fda[fd].position + n)]);
      assert Now() == WithFda(old(Now()), Moved(old(Table(k)), fd, n));
    }

    // file_read: the next bytes of the file, and the position moved past them.
    method FileRead(fd: int, buf: array<byte>, n: int, ghost k: int) returns (r: int)
      requires Valid() && Stacked(disk, Now(), k) && k > 0 && 0 <= fd < MAX_OPEN_FILES
      requires Table(k)[fd].fop == FileOps && n <= buf.Length && n < 0x8000_0000
      modifies pcbs, buf
      ensures Stacked(disk, Now(), k)
      ensures n <= 0 ==> r == -1 && Now() == old(Now()) && buf[..] == old(buf[..])
      ensures n > 0 ==> HasRead(disk, old(Table(k))[fd], n, r, buf[..])
      ensures n > 0 ==> buf[r..] == old(buf[r..])
      ensures n > 0 ==> Now() == WithFda(old(Now()), Moved(old(Table(k)), fd, r))
    {
      SlotOfPcb(k - 1);
      var f := pcbs[SlotOf(pcbObj)].fda[fd];
      ghost var fda, s := Table(k), Now();
      if n <= 0 {
        return -1;
      }
      MovedOk(disk, fda, fd, n);
      hide FdaOk, Stacked;
      ReadCountIff(disk.inodes[f.inode].length, f.position, n);
      r := ReadData(disk, f.inode, f.position, buf, n);
      assert r == |Slice(disk.Contents(f.inode), f.position, n)|;
      assert forall i :: 0 <= i < MAX_PROCESSES ==> pcbs[i] == old(pcbs[i]);
      assert pcbs[..] == old(pcbs[..]);
      assert Now() == s && Table(k) == fda;
      assert HasRead(disk, f, n, r, buf[..]) by { assert buf[..][..r] == buf[..r]; }
      ghost var out := buf[..];
      MovePosition(fd, r, k);
      assert buf[..] == out;
    }

    // directory_read: the name of the entry at the position, which then moves on by
    // one.  The test admits one entry past the last; `beyond` is what memory holds
    // where entry 63 would be.
    method DirectoryRead(fd: int, buf: array<byte>, beyond: Name, ghost k: int) returns (r: int)
      requires Valid() && Stacked(disk, Now(), k) && k > 0 && 0 <= fd < MAX_OPEN_FILES
      requires Table(k)[fd].fop == DirOps && NAME_SIZE <= buf.Length
      modifies pcbs, buf
      ensures Stacked(disk, Now(), k)
      ensures DirectoryHasRead(disk, beyond, old(Table(k))[fd].position % 256, r, buf[..])
      ensures r == -1 ==> Now() == old(Now()) && buf[..] == old(buf[..])
      ensures r != -1 ==> Now() == WithFda(old(Now()), Moved(old(Table(k)), fd, 1))
      ensures forall i :: NAME_SIZE <= i < buf.Length ==> buf[i] == old(buf[i])
    {
      SlotOfPcb(k - 1);
      var f := pcbs[SlotOf(pcbObj)].fda[fd];
      ghost var fda, s := Table(k), Now();
      var index := f.position % 256;
      if index > disk.dirCount || NUM_MAX_FILES < index {
        return -1;
      }
      var name := EntryName(disk, beyond, index);
      assert FdaOk(disk, Moved(fda, fd, 1));
      hide FdaOk, Stacked, Letters;
      Strncpy(buf, name);
      r := CappedStrlen(buf, name);
      ghost var out := buf[..];
      assert out[..NAME_SIZE] == buf[..NAME_SIZE];
      assert forall i :: 0 <= i < MAX_PROCESSES ==> pcbs[i] == old(pcbs[i]);
      assert pcbs[..] == old(pcbs[..]);
      assert Now() == s && Table(k) == fda;
      MovePosition(fd, 1, k);
      assert buf[..] == out;
    }

    // A file read in pieces, call after call: the pieces are consecutive, and
    // together the next bytes of the file, as many as were asked for, or all left.
    method ReadInPieces(fd: int, sizes: seq<int>, ghost k: int) returns (out: seq<byte>)
      requires Valid() && Stacked(disk, Now(), k) && k > 0 && 0 <= fd < MAX_OPEN_FILES
      requires Table(k)[fd].fop == FileOps && Accepted(sizes)
      modifies pcbs
      ensures Stacked(disk, Now(), k)
      ensures ReadFrom(disk, old(Table(k))[fd], sizes, out)
      ensures Table(k)[fd] == old(Table(k))[fd].(position := old(Table(k))[fd].position + |out|)
      decreases |sizes|
    {
      hide Stacked, FdaOk, Accepted, ReadFrom, Slice;
      CurrentTable(disk, Now(), k);
      FileInOrder(disk, Now(), k, fd);
      ghost var f := Table(k)[fd];
      if sizes == [] {
        NothingRead(disk, f);
        out := [];
      } else {
        LaterSizes(sizes);
        var piece := ReadPiece(fd, sizes[0], k);
        var later := ReadInPieces(fd, sizes[1..], k);
        ReadOn(disk, f, sizes, piece, later);
        out := piece + later;
      }
    }

    // One of the pieces.
    method ReadPiece(fd: int, n: int, ghost k: int) returns (piece: seq<byte>)
      requires Valid() && Stacked(disk, Now(), k) && k > 0 && 0 <= fd < MAX_OPEN_FILES
      requires Table(k)[fd].fop == FileOps && 0 < n < 0x8000_0000
      modifies pcbs
      ensures Stacked(disk, Now(), k)
      ensures var f := old(Table(k))[fd];
        0 <= f.inode < |disk.inodes| && 0 <= f.position && piece == Slice(disk.Contents(f.inode), f.position, n)
        && Table(k)[fd] == f.(position := f.position + |piece|)
    {
      FileInOrder(disk, Now(), k, fd);
      hide Stacked, Slice, FdaOk, DescriptorOk;
      ghost var s := Now();
      var buf := new byte[n];
      var r := FileRead(fd, buf, n, k);
      MovedTable(s, k, fd, r);
      return buf[..r];
    }

    // system_read: `device` is what the terminal or the clock does, `beyond` what lies
    // behind the directory.  A directory and the terminal store what they have, and a
    // directory always 32 bytes, whatever n is.
    method SystemRead(fd: int, hasBuf: bool, buf: array<byte>, n: int, device: Device, beyond: Name, ghost k: int)
        returns (r: int)
      requires Valid() && Stacked(disk, Now(), k) && k > 0 && n <= buf.Length && n < 0x8000_0000
      requires |device.stored| <= buf.Length
      requires 0 <= fd < MAX_OPEN_FILES && Table(k)[fd].fop == DirOps ==> NAME_SIZE <= buf.Length
      modifies pcbs, buf
      ensures Stacked(disk, Now(), k) && FdaOk(disk, old(Table(k)))
      ensures
        var e := ReadEffect(disk, old(Table(k)), fd, hasBuf, n, device, beyond);
        && r == e.r && |e.bytes| <= buf.Length && buf[..] == e.bytes + old(buf[..])[|e.bytes|..]
        && Now() == WithFda(old(Now()), AfterRead(old(Table(k)), fd, e.step))
    {
      CurrentTable(disk, Now(), k);
      SlotOfPcb(k - 1);
      Unmoved(disk, Now(), k, fd);
      var t := SlotOf(pcbObj);
      if !hasBuf {
        return -1;
      }
      if fd < 0 || fd > MAX_OPEN_FILES - 1 {
        return -1;
      }
      if pcbs[t].fda[fd].fop == Unset {
        return -1;
      }
      assert DescriptorOk(disk, pcbs[t].fda[fd]);
      if pcbs[t].fda[fd].flags == 0 {
        return -1;
      }
      hide Stacked, FdaOk, Slice, Letters, Padded;
      match pcbs[t].fda[fd].fop {
        case FileOps =>
          r := FileRead(fd, buf, n, k);
          assert n > 0 ==> buf[..] == buf[..r] + buf[r..];
        case StdinOps =>
          Store(buf, device.stored);
          r := device.answer;
        case RtcOps => r := device.answer;
        case DirOps =>
          r := DirectoryRead(fd, buf, beyond, k);
          assert r != -1 ==> buf[..] == buf[..NAME_SIZE] + old(buf[..])[NAME_SIZE..];
        case _ => r := -1;
      }
    }

    // What the terminal stores in the caller's buffer.
    method Store(buf: array<byte>, bytes: seq<byte>)
      requires |bytes| <= buf.Length
      modifies buf
      ensures buf[..] == bytes + old(buf[..])[|bytes|..]
    {
      var i := 0;
      while i < |bytes|
        invariant 0 <= i <= |bytes| && buf[..i] == bytes[..i]
        invariant forall j :: i <= j < buf.Length ==> buf[j] == old(buf[j])
      {
        buf[i] := bytes[i];
        i := i + 1;
      }
    }

    // system_write: `device` is what the terminal or the clock would answer.
    method SystemWrite(fd: int, hasBuf: bool, device: int, ghost k: int) returns (r: int)
      requires Valid() && Stacked(disk, Now(), k) && k > 0
      ensures r == if hasBuf && 0 <= fd < MAX_OPEN_FILES then WriteResult(Table(k)[fd].fop, device) else -1
      ensures 0 <= fd < MAX_OPEN_FILES && Table(k)[fd].flags == 0 ==> r == -1
    {
      SlotOfPcb(k - 1);
      var t := SlotOf(pcbObj);
      if !hasBuf {
        return -1;
      }
      if fd < 0 || fd > MAX_OPEN_FILES - 1 {
        return -1;
      }
      if pcbs[t].fda[fd].fop == Unset {
        return -1;
      }
      assert DescriptorOk(disk, pcbs[t].fda[fd]);
      return WriteResult(pcbs[t].fda[fd].fop, device);
    }

    // A directory read entry by entry, n times: the names that are stored.
    method ListDirectory(fd: int, n: nat, beyond: Name, ghost k: int) returns (stored: seq<seq<byte>>)
      requires Valid() && Stacked(disk, Now(), k) && k > 0 && 0 <= fd < MAX_OPEN_FILES && Table(k)[fd].fop == DirOps
      modifies pcbs
      ensures Stacked(disk, Now(), k) && AllPadded(Listing(disk, beyond, old(Table(k))[fd].position, n), stored)
      decreases n
    {
      CurrentTable(disk, Now(), k);
      hide Stacked, FdaOk, AllPadded, Listing;
      ghost var pos := Table(k)[fd].position;
      if n == 0 {
        NothingListed(disk, beyond, pos);
        stored := [];
      } else {
        var more, name := ReadEntry(fd, beyond, k);
        var later := ListDirectory(fd, n - 1, beyond, k);
        ListingOn(disk, beyond, pos, n, name, later);
        stored := if more then [name] + later else later;
      }
    }

    // One of the entries, if there is one.
    method ReadEntry(fd: int, beyond: Name, ghost k: int) returns (more: bool, name: seq<byte>)
      requires Valid() && Stacked(disk, Now(), k) && k > 0 && 0 <= fd < MAX_OPEN_FILES && Table(k)[fd].fop == DirOps
      modifies pcbs
      ensures Stacked(disk, Now(), k)
      ensures
        var f := old(Table(k))[fd];
        && more == (f.position % 256 <= disk.dirCount)
        && (more ==> name == Padded(EntryName(disk, beyond, f.position % 256)))
        && Table(k)[fd] == if more then f.(position := f.position + 1) else f
    {
      CurrentTable(disk, Now(), k);
      hide Stacked, FdaOk, Letters, Padded, EntryName;
      ghost var s := Now();
      var buf := new byte[NAME_SIZE];
      var r := DirectoryRead(fd, buf, beyond, k);
      MovedTable(s, k, fd, 1);
      return r != -1, buf[..NAME_SIZE];
    }

    // ----- runs -----

    // The calls on descriptors.
    method ServeDescriptor(call: SysCall, ghost k: int) returns (r: int, ghost bytes: seq<byte>)
      requires Valid() && Stacked(disk, Now(), k) && k > 0 && call.Typed() && !call.ExecuteCall? && !call.HaltCall?
      modifies pcbs
      ensures Stacked(disk, Now(), k) && FdaOk(disk, old(Table(k))) && FdaOk(disk, Table(k))
      ensures Answers(disk, old(Table(k)), call, Answer(r, bytes), Table(k)) && Now() == WithFda(old(Now()), Table(k))
    {
      CurrentTable(disk, Now(), k);
      hide Stacked, FdaOk, ReadEffect, OpenAnswers, Moved;
      ghost var s := Now();
      bytes := [];
      match call {
        case OpenCall(name) => r := ServeOpen(name, k);
        case CloseCall(fd) => r := SystemClose(fd, k);
        case ReadCall(fd, hasBuf, n, device, beyond) => r, bytes := ServeRead(fd, hasBuf, n, device, beyond, k);
        case WriteCall(fd, hasBuf, answer) => r := SystemWrite(fd, hasBuf, answer, k);
      }
      TableOf(s, Now(), k);
      CurrentTable(disk, Now(), k);
    }

    method ServeOpen(name: seq<byte>, ghost k: int) returns (r: int)
      requires Valid() && Stacked(disk, Now(), k) && k > 0
      modifies pcbs
      ensures Stacked(disk, Now(), k)
      ensures OpenAnswers(disk, old(Table(k)), name, r, Table(k)) && Now() == WithFda(old(Now()), Table(k))
    {
      CurrentTable(disk, Now(), k);
      hide Stacked, FdaOk, OpenedFor, Openable;
      ghost var s, fda := Now(), Table(k);
      r := SystemOpen(name, k);
      if r != -1 { OpenedTable(disk, name, s, Now(), fda, r, k); }
      TableOf(s, Now(), k);
    }

    method ServeRead(fd: int, hasBuf: bool, n: int, device: Device, beyond: Name, ghost k: int)
        returns (r: int, ghost bytes: seq<byte>)
      requires Valid() && Stacked(disk, Now(), k) && k > 0 && n < 0x8000_0000
      modifies pcbs
      ensures Stacked(disk, Now(), k) && FdaOk(disk, old(Table(k)))
      ensures
        var e := ReadEffect(disk, old(Table(k)), fd, hasBuf, n, device, beyond);
        r == e.r && bytes == e.bytes && Table(k) == AfterRead(old(Table(k)), fd, e.step)
        && Now() == WithFda(old(Now()), Table(k))
    {
      CurrentTable(disk, Now(), k);
      hide Stacked, FdaOk, ReadEffect, AfterRead;
      var room := if n > NAME_SIZE then n else NAME_SIZE;
      var buf := new byte[if |device.stored| > room then |device.stored| else room];
      ghost var s, fda := Now(), Table(k);
      r := SystemRead(fd, hasBuf, buf, n, device, beyond, k);
      bytes := ReadEffect(disk, fda, fd, hasBuf, n, device, beyond).bytes;
      TableOf(s, Now(), k);
    }

    method ServeExecute(name: seq<byte>, args: seq<byte>, esp: int, ebp: int, shell: seq<byte>, ghost k: int)
        returns (stopped: bool, ghost c: Call, ghost a: Result)
      requires Valid() && Stacked(disk, Now(), k) && k > 0
      modifies this, pcbs, image
      ensures Valid() && stopped == Stops(disk, shell, k, ExecuteCall(name, args, esp, ebp))
      ensures !stopped ==>
        Does(disk, shell, old(Now()), k, ExecuteCall(name, args, esp, ebp), c, a)
          && Now() == Apply(disk, old(Now()), k, c)
    {
      AssignIsTop(disk, Now(), k, 0);
      hide Stacked, Fits, Loadable, Execute, Claimed;
      var r := SystemExecute(name, args, esp, ebp);
      stopped := r == Faulted;
      c := if r == Failed && !Loadable(disk, name) then ExecFails else Exec(args, esp, ebp);
      a := if r == Entered then Executed else Refused;
    }

    method ServeHalt(status: int, shell: seq<byte>, esp: int, ebp: int, ghost k: int)
        returns (stopped: bool, ghost c: Call, ghost a: Result)
      requires Valid() && Stacked(disk, Now(), k) && k > 0 && 0 <= status <= 255
      modifies this, pcbs, image
      ensures Valid() && stopped == Stops(disk, shell, k, HaltCall(status, esp, ebp))
      ensures !stopped ==>
        Does(disk, shell, old(Now()), k, HaltCall(status, esp, ebp), c, a) && Now() == Apply(disk, old(Now()), k, c)
    {
      CurrentTable(disk, Now(), k);
      hide Stacked, Fits, Loadable, Execute, Claimed, ShellClosed;
      var r := SystemHalt(status, shell, esp, ebp, k);
      stopped := r == NoShell || r == ShellFaulted;
      c := if r.Returned? then HaltNow else Restart([], esp, ebp);
      a := if r.Returned? then HaltedTo(r.esp, r.ebp, r.status) else ShellAgain;
    }

    // One system call of the running process: c is what it does, and a its result.
    method ServeOne(call: SysCall, shell: seq<byte>, ghost k: int)
        returns (stopped: bool, ghost c: Call, ghost a: Result)
      requires Valid() && Stacked(disk, Now(), k) && k > 0 && call.Typed()
      modifies this, pcbs, image
      ensures Valid() && stopped == Stops(disk, shell, k, call)
      ensures !stopped ==> Does(disk, shell, old(Now()), k, call, c, a) && Now() == Apply(disk, old(Now()), k, c)
    {
      CurrentTable(disk, Now(), k);
      hide Stacked, FdaOk, Fits, Loadable, Execute, ShellClosed, Answers;
      match call {
        case ExecuteCall(name, args, esp, ebp) =>
          stopped, c, a := ServeExecute(name, args, esp, ebp, shell, k);
        case HaltCall(status, esp, ebp) =>
          stopped, c, a := ServeHalt(status, shell, esp, ebp, k);
        case _ =>
          var r;
          ghost var bytes;
          r, bytes := ServeDescriptor(call, k);
          stopped, c, a := false, Update(Table(k)), Answer(r, bytes);
      }
    }

    // Any sequence of system calls, by whichever process is running: every call does
    // and answers what SystemCalls says of it, and the machine is where these calls
    // bring it, until one of them ends the run.
    method Serve(calls: seq<SysCall>, shell: seq<byte>, ghost k: int)
        returns (done: int, ghost trace: seq<Call>, ghost results: seq<Result>)
      requires Valid() && Stacked(disk, Now(), k) && k > 0 && forall i :: 0 <= i < |calls| ==> calls[i].Typed()
      modifies this, pcbs, image
      ensures Valid() && 0 <= done <= |calls| && RunsAbove(disk, 0, k, trace)
      ensures Ran(disk, shell, old(Now()), k, calls[..done], trace, results)
      ensures done < |calls| ==> Stops(disk, shell, DepthAfterAll(k, trace), calls[done])
      ensures done == |calls| ==>
        Now() == ApplyAll(disk, old(Now()), k, 0, trace) && Stacked(disk, Now(), DepthAfterAll(k, trace))
      decreases |calls|
    {
      hide Stacked, FdaOk, Does, Stops, Apply, Allowed;
      done, trace, results := 0, [], [];
      if calls != [] {
        ghost var s := Now();
        var stopped;
        ghost var c, a;
        stopped, c, a := ServeOne(calls[0], shell, k);
        if stopped { return; }
        DoesAllowed(disk, shell, s, k, calls[0], c, a);
        StillRuns(disk, k, c);
        ApplyKeeps(disk, s, k, c);
        done, trace, results := Serve(calls[1..], shell, DepthAfter(k, c));
        assert calls[..done + 1][1..] == calls[1..][..done] && ([c] + trace)[1..] == trace
          && ([a] + results)[1..] == results;
        done, trace, results := done + 1, [c] + trace, [a] + results;
      }
    }

    // A program is executed, does what it likes, other programs included, and halts:
    // the parent goes on with everything as it was.
    method ServeProgram(calls: seq<SysCall>, shell: seq<byte>, ghost k: int)
        returns (done: int, ghost trace: seq<Call>, ghost results: seq<Result>)
      requires Valid() && Stacked(disk, Now(), k) && 0 < k < MAX_PROCESSES
      requires forall i :: 0 <= i < |calls| ==> calls[i].Typed()
      requires |calls| >= 2 && calls[0].ExecuteCall? && Loadable(disk, calls[0].name) && calls[|calls| - 1].HaltCall?
      modifies this, pcbs, image
      ensures Valid() && 0 <= done <= |calls| && Ran(disk, shell, old(Now()), k, calls[..done], trace, results)
      ensures done == |calls| && Matching(disk, k, trace) ==>
        && Stacked(disk, Now(), k) && pid == old(pid) && pcbObj == old(pcbObj) && esp0 == old(esp0)
        && frame == old(frame)
        && pcbs[..k] == old(pcbs[..k]) && Table(k) == old(Table(k))
      ensures done == |calls| && Matching(disk, k, trace) ==>
        var exec, status := calls[0], calls[|calls| - 1].status;
        |results| == |calls|
          && results[|calls| - 1] == HaltedTo(exec.esp, exec.ebp, if status == 255 then 256 else status)
    {
      hide Stacked, Ran, ApplyAll, RunsAbove, Matching, FdaOk;
      CurrentTable(disk, Now(), k);
      ghost var s := Now();
      done, trace, results := Serve(calls, shell, k);
      assert calls[..|calls|] == calls;
      if done == |calls| && Matching(disk, k, trace) {
        RanRuns(disk, shell, s, k, calls, trace, results);
        ProgramRoundTrip(disk, shell, s, k, calls, trace, results);
        assert pcbs[k - 1] == pcbs[..][..k][k - 1] && s.pcbs[k - 1] == s.pcbs[..k][k - 1];
      }
    }
  }

  // Whether the program that was found fits depends on its length.
  lemma FitsLength(disk: Disk, name: seq<byte>, inode: int)
    requires disk.Valid() && (inode == -1 <==> !Loadable(disk, name))
    requires inode != -1 ==> Executable(disk, name, inode) && 0 <= inode < |disk.inodes|
    ensures Fits(disk, name) ==> Loadable(disk, name)
    ensures inode != -1 ==> (Fits(disk, name) <==> disk.inodes[inode].length <= PAGE_ROOM)
  {
    if inode != -1 {
      var i :| Denotes(disk, name, i) && inode == disk.entries[i].inode;
      DenotesOne(disk, name, i);
      assert forall e :: Executable(disk, name, e) ==> e == inode;
    }
  }

  ghost predicate AllPadded(names: seq<Name>, stored: seq<seq<byte>>) {
    |stored| == |names| && forall i :: 0 <= i < |names| ==> stored[i] == Padded(names[i])
  }

  lemma NothingListed(disk: Disk, beyond: Name, pos: int)
    ensures AllPadded(Listing(disk, beyond, pos, 0), [])
  {}

  // One entry, and the entries after it; once there is none, none follows.
  lemma ListingOn(disk: Disk, beyond: Name, pos: int, n: nat, name: seq<byte>, later: seq<seq<byte>>)
    requires n > 0
    requires var more := pos % 256 <= disk.dirCount;
      && (more ==> name == Padded(EntryName(disk, beyond, pos % 256)))
      && AllPadded(Listing(disk, beyond, if more then pos + 1 else pos, n - 1), later)
    ensures AllPadded(Listing(disk, beyond, pos, n), if pos % 256 <= disk.dirCount then [name] + later else later)
  {
    hide Padded, EntryName;
  }

  lemma OpenedTable(disk: Disk, name: seq<byte>, s: Machine, s': Machine, fda: Fda, fd: int, k: int)
    requires disk.Valid() && exists i :: Openable(disk, name, i) && OpenedFor(s, s', fda, fd, disk.entries[i])
    requires SlotOf(s.pcbObj) == k - 1
    ensures |s.pcbs| == MAX_PROCESSES && 0 < k <= MAX_PROCESSES && 0 <= fd < MAX_OPEN_FILES
      && |s'.pcbs| == MAX_PROCESSES
    ensures s' == WithFda(s, s'.pcbs[k - 1].fda)
    ensures exists i ::
      && Openable(disk, name, i)
      && s'.pcbs[k - 1].fda == Opened(fda, fd, disk.entries[i].fileType, disk.entries[i].inode)
  {
    var i :| Openable(disk, name, i) && OpenedFor(s, s', fda, fd, disk.entries[i]);
    var after := Opened(fda, fd, disk.entries[i].fileType, disk.entries[i].inode);
    assert s' == WithFda(s, after) && s'.pcbs[k - 1].fda == after;
  }

  // A call that changes at most the current table leaves the machine with that table.
  lemma TableOf(s: Machine, s': Machine, k: int)
    requires |s.pcbs| == MAX_PROCESSES && 0 < k <= MAX_PROCESSES && SlotOf(s.pcbObj) == k - 1
    requires s' == s || exists fda: Fda :: s' == WithFda(s, fda)
    ensures |s'.pcbs| == MAX_PROCESSES && s' == WithFda(s, s'.pcbs[k - 1].fda)
  {
    assert s.pcbs[k - 1 := s.pcbs[k - 1].(fda := s.pcbs[k - 1].fda)] == s.pcbs;
  }

  lemma Unmoved(disk: Disk, s: Machine, k: int, fd: int)
    requires Stacked(disk, s, k) && k > 0
    ensures |s.pcbs| == MAX_PROCESSES && k <= MAX_PROCESSES && SlotOf(s.pcbObj) == k - 1
    ensures s == WithFda(s, AfterRead(s.pcbs[k - 1].fda, fd, 0))
  {
    CurrentTable(disk, s, k);
    var fda := s.pcbs[k - 1].fda;
    assert AfterRead(fda, fd, 0) == fda;
    assert s.pcbs[k - 1 := s.pcbs[k - 1].(fda := fda)] == s.pcbs;
  }

  lemma CurrentTable(disk: Disk, s: Machine, k: int)
    requires Stacked(disk, s, k) && k > 0
    ensures SlotOf(s.pcbObj) == k - 1 && k <= MAX_PROCESSES == |s.pcbs| && FdaOk(disk, s.pcbs[k - 1].fda)
  {
    SlotOfPcb(k - 1);
    hide FdaOk;
  }

  lemma NotDenoted(disk: Disk, name: seq<byte>)
    requires disk.Valid() && forall i :: 0 <= i < disk.dirCount ==> !SameName(name, disk.entries[i].name)
    ensures !Loadable(disk, name) && forall i :: !Denotes(disk, name, i)
  {}

  // A name denotes at most one entry.
  lemma DenotesOne(disk: Disk, name: seq<byte>, i: int)
    requires disk.Valid() && Denotes(disk, name, i)
    ensures forall j :: Denotes(disk, name, j) ==> j == i
  {}

  lemma {:induction false} AssignRange(pcbs: seq<Pcb>, i: int)
    requires |pcbs| == MAX_PROCESSES && 0 <= i <= MAX_PROCESSES
    ensures AssignPid(pcbs, i) == ASSIGN_PID_ERROR || i <= AssignPid(pcbs, i) < MAX_PROCESSES
    decreases MAX_PROCESSES - i
  {
    if i < MAX_PROCESSES { AssignRange(pcbs, i + 1); }
  }

  lemma AssignIsZero(pcbs: seq<Pcb>)
    requires |pcbs| == MAX_PROCESSES && pcbs[0].active == 0
    ensures AssignPid(pcbs, 0) == 0
  {}

  // A descriptor has been opened on a directory entry, and nothing else changed.
  ghost predicate OpenedFor(before: Machine, after: Machine, fda: Fda, fd: int, entry: Dentry) {
    && 0 <= fd < MAX_OPEN_FILES && 0 <= entry.fileType <= 2
    && |before.pcbs| == MAX_PROCESSES && 0 <= SlotOf(before.pcbObj) < MAX_PROCESSES
    && after == WithFda(before, Opened(fda, fd, entry.fileType, entry.inode))
  }

  // r bytes have been read: what the file holds from the position on, up to n.
  ghost predicate HasRead(disk: Disk, f: FileDescriptor, n: int, r: int, buf: seq<byte>)
    requires disk.Valid()
  {
    && 0 <= f.inode < |disk.inodes| && 0 <= f.position && 0 < n
    && 0 <= r <= |buf| && buf[..r] == Slice(disk.Contents(f.inode), f.position, n)
  }

  // Entry `index` of the directory has been read: a name is found up to and
  // including index dirCount, one past the last entry.
  ghost predicate DirectoryHasRead(disk: Disk, beyond: Name, index: int, r: int, buf: seq<byte>)
    requires 0 <= index
  {
    if index > disk.dirCount then r == -1
    else
      var name := EntryName(disk, beyond, index);
      r == |Letters(name, 0)| && NAME_SIZE <= |buf| && buf[..NAME_SIZE] == Padded(name)
  }

  // The pieces together are the next bytes of the file, as many as were asked for,
  // or all that were left.
  ghost predicate ReadFrom(disk: Disk, f: FileDescriptor, sizes: seq<int>, out: seq<byte>)
    requires disk.Valid()
  {
    && 0 <= f.inode < |disk.inodes|
    && 0 <= f.position <= EndAt(disk.Contents(f.inode), f.position, sizes) <= |disk.Contents(f.inode)|
    && out == disk.Contents(f.inode)[f.position..EndAt(disk.Contents(f.inode), f.position, sizes)]
  }

  lemma FileInOrder(disk: Disk, s: Machine, k: int, fd: int)
    requires disk.Valid() && Stacked(disk, s, k) && k > 0 && 0 <= fd < MAX_OPEN_FILES
      && s.pcbs[k - 1].fda[fd].fop == FileOps
    ensures var f := s.pcbs[k - 1].fda[fd];
      0 <= f.inode < |disk.inodes| && 0 <= f.position <= |disk.Contents(f.inode)|
    ensures SlotOf(s.pcbObj) == k - 1 && |s.pcbs| == MAX_PROCESSES && k <= MAX_PROCESSES
  {
    SlotOfPcb(k - 1);
    assert DescriptorOk(disk, s.pcbs[k - 1].fda[fd]);
  }

  lemma MovedTable(s: Machine, k: int, fd: int, n: int)
    requires |s.pcbs| == MAX_PROCESSES && 0 < k <= MAX_PROCESSES && SlotOf(s.pcbObj) == k - 1
      && 0 <= fd < MAX_OPEN_FILES
    ensures var f := s.pcbs[k - 1].fda[fd];
      WithFda(s, Moved(s.pcbs[k - 1].fda, fd, n)).pcbs[k - 1].fda[fd] == f.(position := f.position + n)
  {}

  lemma NothingRead(disk: Disk, f: FileDescriptor)
    requires disk.Valid() && 0 <= f.inode < |disk.inodes| && 0 <= f.position <= |disk.Contents(f.inode)|
    ensures ReadFrom(disk, f, [], [])
  {
    assert Total([]) == 0;
  }

  // One piece, and the pieces after it.
  lemma ReadOn(disk: Disk, f: FileDescriptor, sizes: seq<int>, piece: seq<byte>, later: seq<byte>)
    requires disk.Valid() && 0 <= f.inode < |disk.inodes| && 0 <= f.position <= |disk.Contents(f.inode)|
    requires sizes != [] && Accepted(sizes) && piece == Slice(disk.Contents(f.inode), f.position, sizes[0])
    requires ReadFrom(disk, f.(position := f.position + |piece|), sizes[1..], later)
    ensures ReadFrom(disk, f, sizes, piece + later)
  {
    hide Slice, EndAt, Accepted, Disk.Valid, Disk.Contents;
    PieceAndLater(disk.Contents(f.inode), f.position, sizes, piece, later);
  }
}
