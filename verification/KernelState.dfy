/** The kernel's global variables and the system calls and interrupts that change them. Each is one method, since
  the code runs them with interrupts off. */
module KernelState {
  import opened Processes
  import opened ProcessTable
  import opened Representation

  import Directory
  import FileSystem
  import Files
  import Memory

  function DeviceOf(fileType: nat): Device {
    if fileType == 0 then Rtc else if fileType == 1 then Device.Directory else Regular
  }

  /** The first entry with the name, if there is one. */
  function Lookup(img: FileSystem.Image, name: seq<Memory.Byte>): Option<Dentry>
    requires FileSystem.Laid(img)
  {
    var i := Directory.FirstNamed(img, name, 0);
    if i == FileSystem.DirCount(img) then None
    else Some(Dentry(DeviceOf(FileSystem.WordAt(img, Directory.EntryAt(i) + 32)),
                     FileSystem.WordAt(img, Directory.EntryAt(i) + 36)))
  }

  /** The first entry with the name has none of the three types that the code knows. */
  predicate TypeUnknown(img: FileSystem.Image, name: seq<Memory.Byte>)
    requires FileSystem.Laid(img)
  {
    var i := Directory.FirstNamed(img, name, 0);
    i < FileSystem.DirCount(img) && FileSystem.WordAt(img, Directory.EntryAt(i) + 32) > 2
  }

  /** What `open` returns, and the descriptors of the caller after it. For a type it does not know it returns what was
      left in its variable. */
  function AfterOpen(img: FileSystem.Image, name: seq<Memory.Byte>, files: seq<Fd>, stale: int): (r: (int, seq<Fd>))
    requires FileSystem.Laid(img) && |files| == FILES
    ensures |r.1| == FILES
  {
    var dentry := Lookup(img, name);
    var fd: int := FreeFrom(files, FD_MIN);
    if TypeUnknown(img, name) then (stale, files)
    else if dentry.None? || fd == FILES then (-1, files) else (fd, files[fd := Opened(dentry.value)])
  }

  /** The case that opens: some descriptor is free and the first entry with the name has a known type. */
  lemma {:induction false} OpensLeastFree(img: FileSystem.Image, name: seq<Memory.Byte>, files: seq<Fd>, stale: int)
    requires FileSystem.Laid(img) && |files| == FILES
    ensures var (fd, after) := AfterOpen(img, name, files, stale);
            var i := Directory.FirstNamed(img, name, 0);
            if i < FileSystem.DirCount(img) && FileSystem.WordAt(img, Directory.EntryAt(i) + 32) > 2 then
              fd == stale && after == files
            else if i == FileSystem.DirCount(img) || forall j | 2 <= j <= 7 :: files[j].open then
              fd == -1 && after == files
            else
              var kind, inode :=
                FileSystem.WordAt(img, Directory.EntryAt(i) + 32), FileSystem.WordAt(img, Directory.EntryAt(i) + 36);
              && 2 <= fd <= 7 && !files[fd].open && (forall j | 2 <= j < fd :: files[j].open)
              && after == files[fd := after[fd]] && after[fd].open && after[fd].position == 0
              && (kind == 0 <==> after[fd].device.Rtc?) && (kind == 1 <==> after[fd].device.Directory?)
              && (kind == 2 <==> after[fd].device.Regular?) && (kind == 2 ==> after[fd].inode == inode)
  {
    hide FileSystem.WordAt, Directory.FirstNamed, FileSystem.DirCount;
  }

  function AfterClose(files: seq<Fd>, fd: int): (r: seq<Fd>)
    requires |files| == FILES
    ensures |r| == FILES
  {
    if FD_MIN <= fd <= FD_MAX && files[fd].open then files[fd := files[fd].(open := false)] else files
  }

  /** A regular file on the disk, or the directory. */
  predicate Readable(img: FileSystem.Image, files: seq<Fd>, fd: int)
    requires FileSystem.Laid(img) && |files| == FILES
  {
    && 0 <= fd <= FD_MAX && files[fd].open
    && (files[fd].device.Directory? || (files[fd].device.Regular? && files[fd].inode < FileSystem.InodeCount(img)))
  }

  /** What a read of `n` bytes at the position of a descriptor yields. */
  ghost function BytesAt(img: FileSystem.Image, f: Fd, n: nat): (bytes: seq<Memory.Byte>)
    requires FileSystem.WellFormed(img) && (f.device.Directory? || f.inode < FileSystem.InodeCount(img))
  {
    if !f.device.Directory? then FileSystem.Slice(img, f.inode, f.position, n)
    else if f.position < FileSystem.DirCount(img) then Directory.NameAt(img, f.position)
    else []
  }

  /** The descriptor after the read: a file by bytes, the directory by entries. */
  ghost function Moved(img: FileSystem.Image, f: Fd, n: nat): Fd
    requires FileSystem.WellFormed(img) && (f.device.Directory? || f.inode < FileSystem.InodeCount(img))
  {
    var bytes := BytesAt(img, f, n);
    f.(position := f.position + if f.device.Directory? && bytes != [] then 1 else |bytes|)
  }

  ghost function AfterRead(img: FileSystem.Image, files: seq<Fd>, fd: int, n: int): (r: seq<Fd>)
    requires FileSystem.WellFormed(img) && |files| == FILES
    ensures |r| == FILES
  {
    if n >= 0 && Readable(img, files, fd) then files[fd := Moved(img, files[fd], n)] else files
  }

  lemma {:induction false} MovedBound(img: FileSystem.Image, f: Fd, n: nat)
    requires FileSystem.WellFormed(img) && (f.device.Directory? || f.inode < FileSystem.InodeCount(img))
    requires f.position <= LONGEST
    ensures Moved(img, f, n).position <= LONGEST
  {
    FewEntries(img);
    if !f.device.Directory? {
      LengthBound(img, f.inode);
    }
  }

  /** The directory moves on by one entry of 32 bytes, a file by the bytes that were there. */
  lemma {:induction false} MovesByWhatIsRead(img: FileSystem.Image, f: Fd, n: nat)
    requires FileSystem.WellFormed(img) && (f.device.Directory? || f.inode < FileSystem.InodeCount(img))
    ensures Moved(img, f, n) == f.(position := Moved(img, f, n).position)
    ensures f.device.Directory? ==>
              var i := f.position;
              if i < FileSystem.DirCount(img) then
                |BytesAt(img, f, n)| == 32 && BytesAt(img, f, n) == Directory.NameAt(img, i)
                && Moved(img, f, n).position == i + 1
              else
                BytesAt(img, f, n) == [] && Moved(img, f, n).position == i
    ensures !f.device.Directory? ==>
              FileSystem.InodeOk(img, f.inode) &&
              var file, at, count := FileSystem.FileBytes(img, f.inode), f.position, |BytesAt(img, f, n)|;
              && count == (if at >= |file| then 0 else if n < |file| - at then n else |file| - at)
              && (count > 0 ==> BytesAt(img, f, n) == file[at..at + count])
              && Moved(img, f, n).position == at + count
  {
    assert !f.device.Directory? ==> FileSystem.InodeOk(img, f.inode);
    hide FileSystem.WellFormed, FileSystem.InodeOk, FileSystem.FileBytes, FileSystem.DirCount;
    hide FileSystem.FileLength, FileSystem.InodeCount;
  }

  /** What the device of a descriptor delivers. */
  method ReadDevice(img: FileSystem.Image, f: Fd, buf: array<Memory.Byte>, n: nat) returns (count: int)
    requires FileSystem.WellFormed(img) && n < FileSystem.TWO_31 && n <= buf.Length && Directory.NAME_LEN <= buf.Length
    requires f.position <= LONGEST && (f.device == Regular || f.device == Device.Directory)
    modifies buf
    ensures if f.device == Device.Directory || f.inode < FileSystem.InodeCount(img) then
              && count == |BytesAt(img, f, n)| <= buf.Length && buf[..count] == BytesAt(img, f, n)
              && (count > 0 ==> forall j | count <= j < n :: buf[j] == 0)
            else
              count == -1
  {
    FewEntries(img);
    hide FileSystem.WellFormed, FileSystem.FileLength, FileSystem.Slice, FileSystem.InodeCount, FileSystem.InodeOk;
    hide FileSystem.Laid, FileSystem.DirCount, Directory.NameAt;
    if f.device == Device.Directory {
      count := Directory.ReadName(img, f.position, buf, n);
    } else {
      count := Files.ReadAt(img, f.inode, f.position, buf, 0, n);
      if count != -1 {
        assert buf[0..0 + count] == buf[..count];
      }
    }
  }

  /** The terminal or the clock, whose reads touch no descriptor. */
  predicate IsDevice(files: seq<Fd>, fd: int)
    requires |files| == FILES
  {
    0 <= fd <= FD_MAX && files[fd].open && !files[fd].device.Regular? && !files[fd].device.Directory?
  }

  lemma {:induction false} FewEntries(img: FileSystem.Image)
    requires FileSystem.WellFormed(img)
    ensures FileSystem.Laid(img) && FileSystem.DirCount(img) < LONGEST
  {
  }

  lemma {:induction false} LengthBound(img: FileSystem.Image, inode: nat)
    requires FileSystem.WellFormed(img) && inode < FileSystem.InodeCount(img)
    ensures FileSystem.FileLength(img, inode) <= LONGEST
  {
    assert FileSystem.InodeOk(img, inode);
  }

  class Kernel {
    var processNum: int
    var shellProcessCount: int
    var scheduleIdx: nat
    var pitCount: nat
    var shellHaltFlag: bool
    var baseShellId: int
    var esp0: int
    var regs: Regs
    var eip: nat     // where the last context switch to a program went
    const pcbs: array<Pcb>
    const scheduleArray: array<int>
    const currPid: array<int>
    const pageDir: array<PdEntry>
    /** The machine this state represents. */
    ghost var machine: Machine

    predicate Arrays()
      reads this
    {
      && pcbs.Length == SLOTS && scheduleArray.Length == TERMINALS
      && currPid.Length == TERMINALS && pageDir.Length == 1024
      && scheduleArray != currPid
    }

    ghost function Vars(): Globals
      requires Arrays()
      reads this, pcbs, scheduleArray, currPid, pageDir
    {
      Globals(pcbs[..], scheduleArray[..], currPid[..], pageDir[..], processNum, pitCount, esp0)
    }

    /** The invariant from the launch of the third shell on; until the tick after it no program is started. */
    ghost predicate Steady()
      reads this, pcbs, scheduleArray, currPid, pageDir
    {
      && Arrays() && 3 <= pitCount <= 4 && !shellHaltFlag && Represents(Vars(), machine)
      && (pitCount == TERMINALS ==> machine.stacks == FirstShells(TERMINALS))
      && machine.current == scheduleIdx && machine.shells == shellProcessCount && machine.regs == regs
    }

    // ----- paging -----

    method PagingExecute(pid: int)
      requires Arrays()
      modifies pageDir
      ensures pageDir[..] == old(pageDir[..])[USER_SLOT := PdEntry(true, 2 + pid)]
    {
      var base := (8 + pid * 4) / 4;
      pageDir[128 / 4] := PdEntry(true, base);
    }

    /** Clears the entry whose number is that of the frame of the process still running. */
    method DisableChildPage()
      requires Arrays() && 0 <= processNum <= MAX_PCB
      modifies pageDir
      ensures pageDir[..] == old(pageDir[..])[processNum + 3 := PdEntry(false, processNum + 3)]
    {
      var base := (8 + (processNum + 1) * 4) / 4;
      pageDir[base] := PdEntry(false, base);
    }

    // ----- execute -----

    /** What the code of `execute` relies on: a table whose free slots are clean, and a caller inside it. */
    ghost predicate Callable()
      reads this, pcbs
    {
      && Arrays() && SlotsOk(pcbs[..], Live(machine.stacks)) && -1 <= processNum <= MAX_PCB && !shellHaltFlag
      && (pitCount >= TERMINALS ==> 0 <= processNum && pcbs[processNum].terminal < TERMINALS)
    }

    /** The search for a PCB that is not active, from the slot after the caller's. */
    method FindSlot() returns (temp: int)
      requires Callable()
      ensures processNum <= temp <= MAX_PCB
      ensures temp + 1 == LeastFree(Live(machine.stacks), processNum + 1)
    {
      ghost var live := Live(machine.stacks);
      temp := processNum;
      assert SlotOk(pcbs[..][temp + 1], (temp + 1) as nat in live);
      while pcbs[temp + 1].active && temp < MAX_PCB
        invariant processNum <= temp <= MAX_PCB
        invariant forall q: nat | processNum < q <= temp :: q in live
        invariant pcbs[temp + 1].active == ((temp + 1) as nat in live)
      {
        temp := temp + 1;
        assert SlotOk(pcbs[..][temp + 1], (temp + 1) as nat in live);
      }
      LeastFreeUnique(live, processNum + 1, temp + 1);
    }

    /** Fills in the fields of the slot, from the label `shell_halt` on. */
    method FillPcb(pid: int, entryPoint: nat, shellFlag: bool, entry: Regs, restart: bool) returns (v: Pcb)
      requires Arrays() && CanLaunch(Vars(), pid, restart)
      ensures v == SlotAfter(Vars(), pid, entryPoint, shellFlag, entry, restart)
      ensures v.entryPoint == if restart then pcbs[pid].entryPoint else entryPoint
    {
      v := pcbs[pid];
      if restart {
        v := v.(isBaseShell := true, parentId := -1);
      } else {
        v := v.(entryPoint := entryPoint);
      }
      if v.parentId != -1 {
        v := v.(parentId := processNum);
      }
      v := v.(pid := pid, active := true, caller := entry, isShell := shellFlag);
      v := v.(files := v.files[0 := v.files[0].(open := true, device := Stdin)]);
      v := v.(files := v.files[1 := v.files[1].(open := true, device := Stdout)]);
      if pitCount < TERMINALS {
        v := v.(terminal := pitCount, isBaseShell := true, parentId := -1);
      } else if !v.isBaseShell {
        v := v.(terminal := pcbs[v.parentId].terminal);
      }
    }

    /** From the label `shell_halt` to the context switch: fills in the PCB and makes it the running process.
        The restart of a first shell jumps here with a stale `shellFlag` and `entry`. */
    method Launch(localPid: int, entryPoint: nat, shellFlag: bool, entry: Regs)
      requires Arrays() && CanLaunch(Vars(), if shellHaltFlag then baseShellId else localPid, shellHaltFlag)
      modifies this`processNum, this`pitCount, this`shellHaltFlag, this`esp0, this`regs, this`eip
      modifies pcbs, scheduleArray, currPid
      ensures Vars() == LaunchedGlobals(old(Vars()), if old(shellHaltFlag) then baseShellId else localPid,
                                        entryPoint, shellFlag, entry, old(shellHaltFlag))
      ensures regs == entry && !shellHaltFlag
      ensures eip == if old(shellHaltFlag) then old(pcbs[baseShellId].entryPoint) else entryPoint
    {
      var pid := if shellHaltFlag then baseShellId else localPid;
      var v := FillPcb(pid, entryPoint, shellFlag, entry, shellHaltFlag);
      shellHaltFlag := false;
      regs := entry;
      pcbs[pid] := v;
      if pitCount < TERMINALS {
        scheduleArray[v.terminal] := pitCount;
        currPid[pitCount] := scheduleArray[pitCount];
        pitCount := pitCount + 1;
      } else {
        scheduleArray[v.terminal] := pid;
        currPid[v.terminal] := scheduleArray[v.terminal];
      }
      esp0 := KernelStackTop(pid);
      processNum := pid;
      eip := v.entryPoint;
    }

    /** The first part of `execute`: counts shells, checks the file and looks for a slot; -1 when it gives up. */
    method Admit(name: string, image: Option<nat>) returns (pid: int)
      requires Callable()
      modifies this`shellProcessCount
      ensures shellProcessCount == old(shellProcessCount)
                + (if IsShellName(name) && old(shellProcessCount) < SHELL_LIMIT then 1 else 0)
      ensures pid == -1 <==>
                || (IsShellName(name) && old(shellProcessCount) >= SHELL_LIMIT) || image.None?
                || LeastFree(Live(machine.stacks), processNum + 1) > MAX_PCB
      ensures pid != -1 ==> pid == LeastFree(Live(machine.stacks), processNum + 1)
    {
      if IsShellName(name) {
        if shellProcessCount >= SHELL_LIMIT {
          return -1;
        }
        shellProcessCount := shellProcessCount + 1;
      }
      if image.None? {
        return -1;
      }
      var temp := FindSlot();
      if temp == MAX_PCB {
        return -1;
      }
      pid := temp + 1;
    }

    /** The second part of `execute`: maps the page and launches. */
    method Begin(pid: int, entryPoint: nat, shellFlag: bool, entry: Regs)
      requires Arrays() && CanLaunch(Vars(), pid, false) && !shellHaltFlag
      modifies this`processNum, this`pitCount, this`shellHaltFlag, this`esp0, this`regs, this`eip
      modifies pcbs, scheduleArray, currPid, pageDir
      ensures CanLaunch(Mapped(old(Vars()), pid), pid, false)
      ensures Vars() == LaunchedGlobals(Mapped(old(Vars()), pid), pid, entryPoint, shellFlag, entry, false)
      ensures regs == entry && !shellHaltFlag && eip == entryPoint
    {
      PagingExecute(pid);
      Launch(pid, entryPoint, shellFlag, entry);
    }

    method StartProgram(name: string, image: Option<nat>, entry: Regs) returns (pid: int)
      requires Callable() && (forall p: nat | p <= MAX_PCB && p !in Live(machine.stacks) :: CanLaunch(Vars(), p, false))
      modifies this`processNum, this`pitCount, this`shellHaltFlag, this`esp0, this`regs, this`eip
      modifies this`shellProcessCount, pcbs, scheduleArray, currPid, pageDir
      ensures shellProcessCount == old(shellProcessCount)
                + (if IsShellName(name) && old(shellProcessCount) < SHELL_LIMIT then 1 else 0)
      ensures regs == entry && !shellHaltFlag
      ensures pid == -1 <==>
                || (IsShellName(name) && old(shellProcessCount) >= SHELL_LIMIT) || image.None?
                || LeastFree(Live(machine.stacks), old(processNum) + 1) > MAX_PCB
      ensures pid != -1 ==>
                && pid == LeastFree(Live(machine.stacks), old(processNum) + 1) && CanLaunch(old(Vars()), pid, false)
      ensures Vars() == ExecutedGlobals(old(Vars()), pid, name, image, entry)
      ensures eip == if pid == -1 then old(eip) else image.value
    {
      pid := Admit(name, image);
      regs := entry;
      if pid != -1 {
        Begin(pid, image.value, IsShellName(name), entry);
      }
    }

    lemma SteadyCallable()
      requires Steady()
      ensures Callable() && 0 <= processNum <= MAX_PCB && Valid(machine) && processNum == Running(machine).pid
      ensures forall p: nat | p <= MAX_PCB && p !in Live(machine.stacks) :: CanLaunch(Vars(), p, false)
    {
      RunningSlot(Vars(), machine);
      forall p: nat | p <= MAX_PCB && p !in Live(machine.stacks) ensures CanLaunch(Vars(), p, false) {
        assert SlotOk(Vars().tab[p], p in Live(machine.stacks));
      }
    }

    lemma ActiveSlots()
      requires Steady()
      ensures forall q | 0 <= q <= MAX_PCB :: pcbs[q].active <==> q in Live(machine.stacks)
      ensures 0 <= processNum <= MAX_PCB && pcbs[processNum].terminal == scheduleIdx
    {
      RunningSlot(Vars(), machine);
      forall q | 0 <= q <= MAX_PCB ensures pcbs[q].active <==> q in Live(machine.stacks) {
        assert SlotOk(pcbs[..][q], q as nat in Live(machine.stacks));
      }
    }

    // ----- the system calls and interrupts -----

    method Execute(name: string, image: Option<nat>, entry: Regs) returns (ok: bool)
      requires Steady() && pitCount > TERMINALS
      modifies this, pcbs, scheduleArray, currPid, pageDir
      ensures Steady() && pitCount == old(pitCount)
      ensures machine == ExecuteStep(old(machine), name, image, entry)
      ensures ok == Launches(old(machine), name, image)
      ensures ok ==> FreshFiles(old(pcbs[..])[processNum].files, pcbs[processNum].files)
      ensures forall p | 0 <= p < SLOTS && (ok ==> p != processNum) :: pcbs[p] == old(pcbs[p])
      ensures shellProcessCount
              == old(shellProcessCount) + (if IsShellName(name) && old(shellProcessCount) < 6 then 1 else 0)
      // it gives up without a file, on a seventh shell, and when every slot above the caller's is taken; else it takes
      // the first that is not
      ensures ok ==>
                && image.Some? && !(IsShellName(name) && old(shellProcessCount) >= 6)
                && old(processNum) < processNum <= 512 && !old(pcbs[..])[processNum].active
                && forall q | old(processNum) < q < processNum :: old(pcbs[q].active)
      ensures !ok && image.Some? && !(IsShellName(name) && old(shellProcessCount) >= 6) ==>
                forall q | old(processNum) < q <= 512 :: old(pcbs[q].active)
      ensures ok ==>
                var v := pcbs[processNum];
                && v.active && v.pid == processNum && v.parentId == old(processNum) && !v.isBaseShell
                && v.caller == entry && v.isShell == IsShellName(name) && v.terminal == scheduleIdx
                && pageDir[..] == old(pageDir[..])[32 := PdEntry(true, 2 + processNum)]
                && esp0 == 0x80_0000 - 0x2000 * processNum - 4
      // it starts at the entry point of its file, which its PCB keeps
      ensures if ok then pcbs[processNum].entryPoint == image.value == eip else eip == old(eip)
    {
      hide Represents, TableOk, StackOk, Pids, SlotsOk, Valid, Live, LeastFree, SlotAfter;
      SteadyCallable();
      ActiveSlots();
      ExecuteRefines(Vars(), machine, name, image, entry);
      if Launches(machine, name, image) { ExecutedSlot(Vars(), machine, name, image, entry); }
      var pid := StartProgram(name, image, entry);
      ok := pid != -1;
      machine := ExecuteStep(machine, name, image, entry);
    }

    /** The close entry of the file operations table of descriptor `fd`. */
    method CloseEntry(fd: nat)
      requires Arrays() && scheduleIdx < TERMINALS && fd < FILES
      requires 0 <= processNum <= MAX_PCB && currPid[scheduleIdx] == processNum && |pcbs[processNum].files| == FILES
      modifies pcbs
      ensures pcbs[..] == old(pcbs[..])[processNum := old(pcbs[processNum]).(files :=
                var f := old(pcbs[processNum].files);
                if FD_MIN <= fd && f[fd].open && f[fd].device != Stdin && f[fd].device != Stdout
                then f[fd := f[fd].(open := false)] else f)]
    {
      var owner := processNum;
      match pcbs[processNum].files[fd].device {
        case Stdin => return;
        case Stdout => return;
        case Rtc => owner := currPid[scheduleIdx];
        case Directory =>
        case Regular =>
      }
      var v := pcbs[owner];
      if FD_MIN <= fd <= FD_MAX && v.files[fd].open {
        pcbs[owner] := v.(files := v.files[fd := v.files[fd].(open := false)]);
      }
    }

    /** Halt closes the open descriptors below FD_MAX; closing 0 or 1 does nothing. */
    method CloseFiles()
      requires Arrays() && scheduleIdx < TERMINALS
      requires 0 <= processNum <= MAX_PCB && currPid[scheduleIdx] == processNum && FilesOk(pcbs[processNum])
      modifies pcbs
      ensures pcbs[..] == old(pcbs[..])[processNum := SlotClosed(old(pcbs[processNum]))]
    {
      ghost var tab := pcbs[..];
      ghost var was := pcbs[processNum];
      var i := 0;
      while i < FD_MAX
        invariant i <= FD_MAX
        invariant pcbs[..] == tab[processNum := was.(files := pcbs[processNum].files)]
        invariant |pcbs[processNum].files| == FILES
        invariant forall j | 0 <= j < FILES ::
          pcbs[processNum].files[j] == if FD_MIN <= j < i then was.files[j].(open := false) else was.files[j]
      {
        if pcbs[processNum].files[i].open {
          CloseEntry(i);
        }
        i := i + 1;
      }
      assert pcbs[processNum].files == Closed(was.files);
    }

    /** Marks the parent as the running process of the terminal. */
    method HandOver(v: Pcb)
      requires Arrays() && 0 <= processNum <= MAX_PCB && 0 <= v.parentId < SLOTS && v.terminal < TERMINALS
      modifies this`processNum, pcbs, scheduleArray, currPid
      ensures var c := old(processNum);
              var p := v.parentId;
              var tab := old(pcbs[..])[c := old(pcbs[c]).(active := false)];
              && pcbs[..] == tab[p := tab[p].(active := true)]
              && scheduleArray[..] == old(scheduleArray[..])[v.terminal := tab[p].pid]
              && currPid[..] == old(currPid[..])[v.terminal := p]
              && processNum == p
    {
      pcbs[processNum] := pcbs[processNum].(active := false);
      pcbs[v.parentId] := pcbs[v.parentId].(active := true);
      scheduleArray[v.terminal] := pcbs[v.parentId].pid;
      currPid[v.terminal] := v.parentId;
      processNum := v.parentId;
    }

    /** The part of halt for a process with a parent. */
    method Pop()
      requires Arrays() && scheduleIdx < TERMINALS && 0 <= processNum <= MAX_PCB
      requires currPid[scheduleIdx] == processNum && FilesOk(pcbs[processNum])
      requires !pcbs[processNum].isBaseShell
      requires 0 <= pcbs[processNum].parentId < SLOTS && pcbs[processNum].terminal < TERMINALS
      modifies this`processNum, this`esp0, this`regs, this`shellProcessCount
      modifies pcbs, scheduleArray, currPid, pageDir
      ensures Vars() == PoppedGlobals(old(Vars()))
      ensures regs == old(pcbs[processNum].caller)
      ensures shellProcessCount == old(shellProcessCount) - (if old(pcbs[processNum].isShell) then 1 else 0)
    {
      var v := pcbs[processNum];
      esp0 := KernelStackTop(v.parentId);
      PagingExecute(v.parentId);
      DisableChildPage();
      CloseFiles();
      HandOver(v);
      if v.isShell {
        shellProcessCount := shellProcessCount - 1;
      }
      regs := v.caller;
    }

    method Restart(stale: bool, entry: Regs)
      requires Arrays() && scheduleIdx < TERMINALS && 0 <= processNum <= MAX_PCB && pitCount >= TERMINALS
      requires currPid[scheduleIdx] == processNum && FilesOk(pcbs[processNum]) && pcbs[processNum].terminal < TERMINALS
      requires pcbs[processNum].pid == processNum && !shellHaltFlag
      modifies this`processNum, this`pitCount, this`esp0, this`regs, this`eip, this`shellHaltFlag, this`baseShellId
      modifies pcbs, scheduleArray, currPid
      ensures Vars() == RestartedGlobals(old(Vars()), stale, entry) && regs == entry && !shellHaltFlag
      ensures eip == old(pcbs[processNum].entryPoint)
    {
      shellHaltFlag := true;
      esp0 := KernelStackTop(pcbs[processNum].pid);
      CloseFiles();
      baseShellId := pcbs[processNum].pid;
      // eax is cleared before the jump; the label takes the pid from base_shell_id
      Launch(0, 0, stale, entry);
    }

    /** `system_halt` and `exception_halt`. A first shell starts again: it jumps into `execute`, whose local
        shell flag then holds a stale value. */
    method Halt(entry: Regs, stale: bool)
      requires Steady()
      modifies this, pcbs, scheduleArray, currPid, pageDir
      ensures Steady() && pitCount == old(pitCount)
      ensures machine == HaltStep(old(machine), entry)
      // descriptors of the process are closed, all of them exactly when the last one was not in use
      ensures pcbs[old(processNum)].files == Closed(old(pcbs[processNum].files))
      ensures (forall i | FD_MIN <= i < FILES :: !pcbs[old(processNum)].files[i].open)
              <==> !old(pcbs[processNum].files)[FD_MAX].open
      ensures forall p | 0 <= p < SLOTS && p != old(processNum) :: pcbs[p].files == old(pcbs[p].files)
      // a process with a parent gives way to it, with the page entry of number pid + 3 cleared; a first shell stays
      ensures if old(pcbs[processNum].isBaseShell) then
                && processNum == old(processNum) && pageDir[..] == old(pageDir[..])
                && regs == entry && shellProcessCount == old(shellProcessCount)
              else
                && processNum == old(pcbs[processNum].parentId) && !pcbs[old(processNum)].active
                && regs == old(pcbs[processNum].caller)
                && pageDir[..] == old(pageDir[..])[32 := PdEntry(true, 2 + processNum)]
                                                  [old(processNum) + 3 := PdEntry(false, old(processNum) + 3)]
                && shellProcessCount == old(shellProcessCount) - (if old(pcbs[processNum].isShell) then 1 else 0)
      ensures pcbs[processNum].active && esp0 == 0x80_0000 - 0x2000 * processNum - 4
      // every PCB keeps its entry point, and a first shell starts again at its own
      ensures forall p | 0 <= p < SLOTS :: pcbs[p].entryPoint == old(pcbs[p].entryPoint)
      ensures old(pcbs[processNum].isBaseShell) ==> eip == old(pcbs[processNum].entryPoint)
    {
      hide Represents, TableOk, Valid, Live;
      ghost var m := machine;
      ghost var g := Vars();
      RunningSlot(g, m);
      if !pcbs[processNum].isBaseShell {
        PopRepresents(g, m, entry);
        PoppedSlots(g, m);
        Pop();
      } else {
        RestartRepresents(g, m, stale, entry);
        Restart(stale, entry);
      }
      assert pcbs[g.processNum].files[FD_MAX] == g.tab[g.processNum].files[FD_MAX];
      machine := HaltStep(m, entry);
    }

    /** What the scheduler does to the globals once the three shells are launched. */
    method Rotate(entry: Regs)
      requires Arrays() && scheduleIdx < TERMINALS && 0 <= processNum < SLOTS
      requires forall t | 0 <= t < TERMINALS :: 0 <= scheduleArray[t] < SLOTS
      // the PCB of the next process holds its own number
      requires var next := if scheduleIdx < 2 then scheduleIdx + 1 else 0;
               pcbs[scheduleArray[next]].pid == scheduleArray[next]
      modifies this`scheduleIdx, this`processNum, this`pitCount, this`esp0, this`regs, pcbs, pageDir
      ensures scheduleIdx == (if old(scheduleIdx) < 2 then old(scheduleIdx) + 1 else 0)
      ensures Vars() == TickedGlobals(old(Vars()), scheduleIdx, entry)
      ensures regs == pcbs[scheduleArray[scheduleIdx]].saved
    {
      var v := pcbs[processNum].(saved := entry);
      if pitCount == TERMINALS {
        v := v.(isShell := true, isBaseShell := true, parentId := -1, active := true);
        pitCount := pitCount + 1;
      }
      pcbs[processNum] := v;
      if scheduleIdx < TERMINALS - 1 {
        scheduleIdx := scheduleIdx + 1;
      } else {
        scheduleIdx := 0;
      }
      var nextPid := scheduleArray[scheduleIdx];
      processNum := nextPid;
      PagingExecute(pcbs[nextPid].pid);
      esp0 := KernelStackTop(pcbs[nextPid].pid);
      regs := pcbs[nextPid].saved;
    }

    lemma Rotates()
      requires Steady()
      ensures Shape(machine) && (pitCount == TERMINALS ==> |machine.stacks[machine.current]| == 1)
      ensures 0 <= processNum < SLOTS && forall t | 0 <= t < TERMINALS :: 0 <= scheduleArray[t] < SLOTS
      ensures forall t | 0 <= t < TERMINALS :: pcbs[scheduleArray[t]].pid == scheduleArray[t]
    {
      RunningSlot(Vars(), machine);
      ResumedSlot(Vars(), machine, 0);
      ResumedSlot(Vars(), machine, 1);
      ResumedSlot(Vars(), machine, 2);
    }

    /** A timer interrupt once the three shells are launched: saves, moves on, restores. */
    method Tick(entry: Regs)
      requires Steady()
      modifies this, pcbs, scheduleArray, currPid, pageDir
      ensures Steady() && pitCount == 4
      ensures machine == TickStep(old(machine), entry)
      ensures forall p | 0 <= p < SLOTS ::
                pcbs[p].files == old(pcbs[p].files) && pcbs[p].entryPoint == old(pcbs[p].entryPoint)
      // the registers go to one PCB and come from the next, whose page and kernel stack are selected
      ensures scheduleIdx == (old(scheduleIdx) + 1) % 3 && processNum == old(scheduleArray[..])[scheduleIdx]
      ensures pcbs[old(processNum)].saved == entry && regs == pcbs[processNum].saved
      ensures forall p | 0 <= p < SLOTS && p != old(processNum) :: pcbs[p] == old(pcbs[p])
      ensures pageDir[..] == old(pageDir[..])[32 := PdEntry(true, 2 + processNum)]
      ensures esp0 == 0x80_0000 - 0x2000 * processNum - 4
      ensures scheduleArray[..] == old(scheduleArray[..]) && currPid[..] == old(currPid[..])
    {
      hide Represents, TableOk, StackOk, Pids;
      ghost var m := machine;
      ghost var g := Vars();
      Rotates();
      TickRepresents(g, m, entry);
      Rotate(entry);
      machine := TickStep(m, entry);
    }

    /** Between the launches of the first shells; the stacks of the terminals still to come are empty. */
    ghost predicate Booting()
      reads this, pcbs, scheduleArray, currPid, pageDir
    {
      && Arrays() && pitCount < TERMINALS && !shellHaltFlag && Booted(Vars(), pitCount)
      && machine.stacks == FirstShells(pitCount) && |machine.saved| == TERMINALS
      && scheduleIdx == (if pitCount == 0 then 0 else pitCount - 1) && shellProcessCount == pitCount
      && (pitCount == 2 ==> pcbs[0].saved == machine.saved[0])
    }

    /** The state `entry` in kernel.c leaves, over PCB memory that is zero. */
    constructor ()
      ensures Booting() && pitCount == 0
      ensures fresh(pcbs) && fresh(scheduleArray) && fresh(currPid) && fresh(pageDir)
    {
      var none := Fd(false, Regular, 0, 0);
      var zero := Pcb(0, 0, NO_REGS, NO_REGS, false, 0, false, false, 0, seq(FILES, i => none));
      processNum, shellProcessCount, scheduleIdx, pitCount := -1, 0, 0, 0;
      shellHaltFlag, baseShellId, esp0, regs, eip := false, 0, EIGHT_MB, NO_REGS, 0;
      pcbs := new Pcb[SLOTS](i => zero);
      scheduleArray := new int[TERMINALS](i => 0);
      currPid := new int[TERMINALS](i => 0);
      pageDir := new PdEntry[1024](i => PdEntry(false, 0));
      machine := Machine(FirstShells(0), 0, [NO_REGS, NO_REGS, NO_REGS], 0, NO_REGS, None, EIGHT_MB);
    }

    /** One of the three timer interrupts that launch a shell; the shell's file is there and executable. */
    method BootTick(image: nat, entry: Regs)
      requires Booting()
      modifies this, pcbs, scheduleArray, currPid, pageDir
      ensures pitCount == old(pitCount) + 1 && shellProcessCount == pitCount
      ensures pitCount < TERMINALS ==> Booting()
      ensures pitCount == TERMINALS ==>
                && Steady() && Disciplined(machine) && OwnsAddressSpace(machine)
                && machine.stacks == FirstShells(TERMINALS) && machine.current == 2
      ensures pcbs[old(pitCount)].entryPoint == image == eip
      ensures forall p | 0 <= p < SLOTS && p != old(pitCount) :: pcbs[p].entryPoint == old(pcbs[p].entryPoint)
    {
      hide Booted, Represents, SlotsOk, Valid, Disciplined, Live;
      ghost var k := pitCount;
      if pitCount > 0 {
        Interrupted(entry);
        scheduleIdx := scheduleIdx + 1;
      }
      BootSlots(Vars(), k);
      BootLaunch(Vars(), k, image, entry);
      assert IsShellName("shell");
      var pid := StartProgram("shell", Some(image), entry);
      machine := Machine(FirstShells(k + 1), scheduleIdx,
                         if k > 0 then machine.saved[k - 1 := entry] else machine.saved,
                         shellProcessCount, regs, UserFrame(pageDir[..]), esp0);
      if pitCount == TERMINALS {
        BootRepresents(Vars(), machine);
        BootedValid(machine);
      }
    }

    /** What the scheduler does to the PCB of the shell that was just launched. */
    method Interrupted(entry: Regs)
      requires Booting() && pitCount > 0
      modifies pcbs
      ensures Booting()
      ensures pcbs[..] == old(pcbs[..])[pitCount - 1 :=
                old(pcbs[pitCount - 1]).(saved := entry, isShell := true, active := true)]
    {
      ghost var g := Vars();
      ghost var k := pitCount;
      pcbs[processNum] := pcbs[processNum].(saved := entry, isShell := true, active := true);
      BootTouched(g, k, pcbs[k - 1]);
    }

    // ----- descriptors -----

    /** The search for a free descriptor in the table of `owner`. */
    method FindFree(owner: int) returns (fd: int)
      requires Arrays() && 0 <= owner < SLOTS && |pcbs[owner].files| == FILES
      ensures var f := FreeFrom(pcbs[owner].files, FD_MIN);
              fd == if f < FILES then f else -1
    {
      var i := FD_MIN;
      while i <= FD_MAX
        invariant FD_MIN <= i <= FILES
        invariant FreeFrom(pcbs[owner].files, FD_MIN) == FreeFrom(pcbs[owner].files, i)
      {
        if !pcbs[owner].files[i].open {
          return i;
        }
        i := i + 1;
      }
      fd := -1;
    }

    /** The descriptors of the running process. */
    ghost function RunningFiles(): (files: seq<Fd>)
      requires Steady()
      reads this, pcbs, scheduleArray, currPid, pageDir
      ensures 0 <= processNum < SLOTS && files == pcbs[processNum].files && |files| == FILES
    {
      RunningSlot(Vars(), machine);
      pcbs[processNum].files
    }

    lemma Scheduled()
      requires Steady()
      ensures Arrays() && scheduleIdx < TERMINALS && currPid[scheduleIdx] == processNum && 0 <= processNum < SLOTS
      ensures FilesOk(pcbs[processNum]) && pcbs[processNum].active && |pcbs[processNum].files| == FILES
      ensures pcbs[processNum].files[0].device == Stdin && pcbs[processNum].files[0].open
      ensures pcbs[processNum].files[1].device == Stdout && pcbs[processNum].files[1].open
    {
      RunningSlot(Vars(), machine);
    }

    /** The state with one descriptor of the running process changed. */
    method ChangeFd(fd: int, f: Fd)
      requires Steady() && FD_MIN <= fd <= FD_MAX && f.position <= LONGEST
      requires f.open ==> f.device != Stdin && f.device != Stdout
      modifies pcbs
      ensures Steady() && pcbs[..] == WithFd(old(pcbs[..]), processNum, fd, f)
    {
      hide TableOk, Suspended, StackOk, Pids;
      ghost var g := Vars();
      RunningSlot(g, machine);
      var v := pcbs[processNum].(files := pcbs[processNum].files[fd := f]);
      FilesRepresent(g, machine, v);
      pcbs[processNum] := v;
      assert Vars() == g.(tab := g.tab[processNum := v]);
    }

    /** The part of `open` behind the lookup, which has found `dentry`, or nothing. The device files take the PCB of
        the scheduled terminal, the others that of `process_num`: they are the same process. */
    method OpenEntry(dentry: Option<Dentry>) returns (fd: int)
      requires Steady()
      requires dentry.Some? ==> dentry.value.device != Stdin && dentry.value.device != Stdout
      modifies pcbs
      ensures Steady()
      ensures var f := FreeFrom(old(RunningFiles()), FD_MIN);
              fd == if dentry.None? || f == FILES then -1 else f
      ensures fd == -1 ==> pcbs[..] == old(pcbs[..])
      ensures fd != -1 ==>
                && FD_MIN <= fd <= FD_MAX
                && pcbs[..] == WithFd(old(pcbs[..]), processNum, fd, Opened(dentry.value))
    {
      Scheduled();
      hide Represents;
      if dentry.None? {
        return -1;
      }
      var device := dentry.value.device;
      var owner := if device == Rtc then currPid[scheduleIdx] else processNum;
      fd := FindFree(owner);
      if fd == -1 {
        return;
      }
      ChangeFd(fd, Fd(true, device, if device == Regular then dentry.value.inode else 0, 0));
    }

    /** `open` of a name: the first entry with that name, on the least free descriptor. `stale` is what its result
        variable holds before it is set. */
    method Open(img: FileSystem.Image, name: seq<Memory.Byte>, stale: int) returns (fd: int)
      requires Steady() && FileSystem.Laid(img) && Memory.NulFree(name)
      modifies pcbs
      ensures Steady()
      ensures var after := AfterOpen(img, name, old(RunningFiles()), stale);
              fd == after.0 && pcbs[..] == WithFiles(old(pcbs[..]), processNum, after.1)
      // what that is: no entry or no free descriptor, or the least free one at the beginning of what the name is
      ensures var i := Directory.FirstNamed(img, name, 0);
              var files, now := old(RunningFiles()), RunningFiles();
              if i < FileSystem.DirCount(img) && FileSystem.WordAt(img, Directory.EntryAt(i) + 32) > 2 then
                fd == stale && now == files
              else if i == FileSystem.DirCount(img) || forall j | 2 <= j <= 7 :: files[j].open then
                fd == -1 && now == files
              else
                var kind, inode :=
                  FileSystem.WordAt(img, Directory.EntryAt(i) + 32), FileSystem.WordAt(img, Directory.EntryAt(i) + 36);
                && 2 <= fd <= 7 && !files[fd].open && (forall j | 2 <= j < fd :: files[j].open)
                && now == files[fd := now[fd]] && now[fd].open && now[fd].position == 0
                && (kind == 0 <==> now[fd].device.Rtc?) && (kind == 1 <==> now[fd].device.Directory?)
                && (kind == 2 <==> now[fd].device.Regular?) && (kind == 2 ==> now[fd].inode == inode)
      // nothing else in the table changes
      ensures pcbs[..] == old(pcbs[..])[processNum := old(pcbs[processNum]).(files := RunningFiles())]
    {
      hide Represents, FileSystem.Laid;
      hide FileSystem.WordAt, Directory.FirstNamed, Directory.Padded;
      OpensLeastFree(img, name, RunningFiles(), stale);
      var result, entry, index := Directory.ReadDentryByName(img, name);
      if result == -1 {
        return -1;
      }
      if entry.fileType > 2 {
        return stale;
      }
      fd := OpenEntry(Some(Dentry(DeviceOf(entry.fileType), entry.inode)));
    }

    /** `file_read` or `directory_read` of an open descriptor. */
    method ReadAndMove(img: FileSystem.Image, fd: nat, f: Fd, buf: array<Memory.Byte>, n: nat) returns (count: int)
      requires Steady() && FileSystem.WellFormed(img) && n < FileSystem.TWO_31 && Directory.NAME_LEN <= buf.Length
      requires FD_MIN <= fd <= FD_MAX && f == RunningFiles()[fd] && f.open && f.position <= LONGEST && n <= buf.Length
      requires f.device == Regular || f.device == Device.Directory
      modifies pcbs, buf
      ensures Steady()
      ensures if f.device == Device.Directory || f.inode < FileSystem.InodeCount(img) then
                && count == |BytesAt(img, f, n)| <= buf.Length && buf[..count] == BytesAt(img, f, n)
                && (count > 0 ==> forall j | count <= j < n :: buf[j] == 0)
                && pcbs[..] == WithFd(old(pcbs[..]), processNum, fd, Moved(img, f, n))
              else
                count == -1 && pcbs[..] == old(pcbs[..])
    {
      hide Represents, FileSystem.WellFormed, FileSystem.InodeCount, BytesAt;
      count := ReadDevice(img, f, buf, n);
      if count == -1 {
        return;
      }
      MovedBound(img, f, n);
      var step := if f.device == Device.Directory && count > 0 then 1 else count;
      ChangeFd(fd, f.(position := f.position + step));
    }

    /** `read`. Of a file or the directory: the bytes at the position, which moves on, in the table of the running
        process and nowhere else. Of the terminal or a clock: `other` is what its routine returned. The result is the
        size asked for, unless nothing was read or the read failed. */
    method Read(img: FileSystem.Image, fd: int, buf: array<Memory.Byte>, n: int, other: int)
      returns (result: int, count: int)
      requires Steady() && FileSystem.WellFormed(img) && n < FileSystem.TWO_31 && Directory.NAME_LEN <= buf.Length
      requires n <= buf.Length
      modifies pcbs, buf
      ensures Steady() && result == if n < 0 || count == -1 then -1 else if count == 0 then 0 else n
      ensures var files := old(RunningFiles());
              && pcbs[..] == WithFiles(old(pcbs[..]), processNum, AfterRead(img, files, fd, n))
              && if n >= 0 && Readable(img, files, fd) then
                   && count == |BytesAt(img, files[fd], n)| <= buf.Length
                   && buf[..count] == BytesAt(img, files[fd], n)
                   && (count > 0 ==> forall j | count <= j < n :: buf[j] == 0)
                 else
                   count == if n >= 0 && IsDevice(files, fd) then other else -1
    {
      Scheduled();
      hide Represents, FileSystem.WellFormed, FileSystem.InodeCount, BytesAt, Moved, FileSystem.FileLength;
      if fd < 0 || fd > FD_MAX || n < 0 || !pcbs[currPid[scheduleIdx]].files[fd].open {
        return -1, -1;
      }
      var device := pcbs[processNum].files[fd].device;
      if device == Regular || device == Device.Directory {
        count := ReadAndMove(img, fd, pcbs[processNum].files[fd], buf, n);
      } else {
        count := other;
      }
      result := Files.ReadResult(count, n);
    }

    /** `close`: only descriptors 2 to 7 that are open; frees that one descriptor. */
    method Close(fd: int) returns (result: int)
      requires Steady()
      modifies pcbs
      ensures Steady()
      ensures var files := old(RunningFiles());
              && result == (if FD_MIN <= fd <= FD_MAX && files[fd].open then 1 else -1)
              && pcbs[..] == WithFiles(old(pcbs[..]), processNum, AfterClose(files, fd))
      ensures result == 1 ==>
                && pcbs[..] == old(pcbs[..])[processNum := old(pcbs[processNum]).(files := RunningFiles())]
                && RunningFiles() == old(RunningFiles())[fd := old(RunningFiles())[fd].(open := false)]
      ensures result == -1 ==> pcbs[..] == old(pcbs[..]) && RunningFiles() == old(RunningFiles())
    {
      hide TableOk, Suspended, StackOk, Pids;
      ghost var g := Vars();
      RunningSlot(g, machine);
      if fd < FD_MIN || fd > FD_MAX || !pcbs[currPid[scheduleIdx]].files[fd].open {
        return -1;
      }
      var files := pcbs[processNum].files;
      ghost var v := pcbs[processNum].(files := files[fd := files[fd].(open := false)]);
      FilesRepresent(g, machine, v);
      CloseEntry(fd);
      assert Vars() == g.(tab := g.tab[processNum := v]);
      result := 1;
    }

    /** A descriptor that is closed is what the next `open` takes, when those below it are in use. */
    method CloseThenOpen(img: FileSystem.Image, fd: int, name: seq<Memory.Byte>, stale: int)
      returns (closed: int, again: int)
      requires Steady() && FileSystem.Laid(img) && Memory.NulFree(name)
      modifies pcbs
      ensures Steady() && (closed == 1 <==> 2 <= fd <= 7 && old(RunningFiles())[fd].open)
      ensures var i := Directory.FirstNamed(img, name, 0);
              var files := old(RunningFiles());
              && i < FileSystem.DirCount(img) && FileSystem.WordAt(img, Directory.EntryAt(i) + 32) <= 2
              && 2 <= fd <= 7 && (forall j | 2 <= j <= fd :: files[j].open) ==>
                && again == fd && RunningFiles()[fd].open && RunningFiles()[fd].position == 0
                && RunningFiles() == files[fd := RunningFiles()[fd]]
    {
      hide Steady, FileSystem.Laid, FileSystem.WordAt, Directory.FirstNamed, AfterOpen, AfterClose;
      ghost var files := RunningFiles();
      closed := Close(fd);
      ghost var between := RunningFiles();
      again := Open(img, name, stale);
      if 2 <= fd <= 7 && files[fd].open {
        assert !between[fd].open && forall j | 2 <= j < fd :: between[j] == files[j];
      }
    }

    /** `close` undoes `open`: whatever was opened and closed again, the same descriptors are in use as before. */
    method OpenThenClose(img: FileSystem.Image, name: seq<Memory.Byte>, stale: int) returns (fd: int, closed: int)
      requires Steady() && FileSystem.Laid(img) && Memory.NulFree(name)
      modifies pcbs
      ensures Steady() && (forall j | 0 <= j < FILES && j != fd :: RunningFiles()[j] == old(RunningFiles())[j])
      ensures var i := Directory.FirstNamed(img, name, 0);
              i < FileSystem.DirCount(img) && FileSystem.WordAt(img, Directory.EntryAt(i) + 32) <= 2 && fd != -1 ==>
                closed == 1 && 2 <= fd <= 7 && !RunningFiles()[fd].open && !old(RunningFiles())[fd].open
    {
      hide Steady, FileSystem.Laid, FileSystem.WordAt, Directory.FirstNamed, AfterOpen, AfterClose;
      fd := Open(img, name, stale);
      closed := Close(fd);
    }
  }
}
