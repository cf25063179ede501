/** The disk driver (v1-src/device/ide.c): transfers of any length in chunks of at most 256 sectors,
    the task-file registers through which a chunk is named, and the handshake with the interrupt. */
module Ide {
  import opened Common

  const SECTOR := 512
  const MAX_LBA := 80 * 1024 * 1024 / 512 - 1
  const CMD_READ_SECTOR: Byte := 0x20
  const CMD_WRITE_SECTOR: Byte := 0x30

  /** The registers written by `select_sector`. */
  datatype Registers = Registers(sectCnt: Byte, lbaL: Byte, lbaM: Byte, lbaH: Byte, dev: bv8)

  /** 0xa0 and the LBA bit, the device bit, and bits 24 to 27 of the address. */
  function DevByte(devNo: int, high: bv8): bv8 {
    0xa0 | 0x40 | (if devNo == 1 then 0x10 else 0) | high
  }

  /** What `select_sector` writes for an address and the 8-bit count it is passed. */
  function Selected(devNo: int, lba: int, secCnt: Byte): Registers
    requires 0 <= lba < 0x1000_0000
  {
    Registers(secCnt, lba % 0x100, lba / 0x100 % 0x100, lba / 0x1_0000 % 0x100,
        DevByte(devNo, (lba / 0x100_0000) as bv8))
  }

  /** The registers name an address by its number only when bit 6 of the device register is set. */
  predicate InLbaMode(r: Registers) { r.dev & 0x40 != 0 }

  /** The 28-bit address, the count (0 stands for 256) and the device a disk reads from the
      registers: clause 8 of ATA/ATAPI-6, READ SECTOR(S) and WRITE SECTOR(S). */
  function AddressOf(r: Registers): (lba: Option<int>)
    ensures lba.Some? ==> lba.value >= 0
  {
    if InLbaMode(r) then Some(r.lbaL + 0x100 * r.lbaM + 0x1_0000 * r.lbaH + 0x100_0000 * ((r.dev & 0x0f) as int))
    else None
  }

  function CountOf(r: Registers): int { if r.sectCnt == 0 then 256 else r.sectCnt }

  function DeviceOf(r: Registers): int { if r.dev & 0x10 == 0 then 0 else 1 }

  lemma DevBits(devNo: int, high: bv8)
    requires high < 16
    ensures DevByte(devNo, high) & 0x0f == high
    ensures DevByte(devNo, high) & 0x10 == if devNo == 1 then 0x10 else 0
    ensures DevByte(devNo, high) & 0xe0 == 0xe0 && DevByte(devNo, high) & 0x40 == 0x40
  {
  }

  /** Selecting loses nothing: bits 5, 6 and 7 of the device register are set, so that the disk is in LBA
      mode, and it decodes the address, the device, and the number of sectors that was truncated to a
      byte, 256 included. */
  lemma SelectRoundTrip(devNo: int, lba: int, n: int)
    requires (devNo == 0 || devNo == 1) && 0 <= lba < 0x1000_0000 && 0 < n <= 256
    ensures var r := Selected(devNo, lba, n % 0x100);
            && r.dev & 0x80 != 0 && r.dev & 0x40 != 0 && r.dev & 0x20 != 0
            && AddressOf(r) == Some(lba) && CountOf(r) == n && DeviceOf(r) == devNo
  {
    var high := (lba / 0x100_0000) as bv8;
    HighNibble(lba / 0x100_0000);
    DevBits(devNo, high);
    FourBytes(lba);
    ThreeBits(DevByte(devNo, high));
    hide DevByte;
  }

  lemma ThreeBits(b: bv8)
    requires b & 0xe0 == 0xe0
    ensures b & 0x80 != 0 && b & 0x40 != 0 && b & 0x20 != 0
  {
  }

  lemma FourBytes(x: int)
    requires 0 <= x
    ensures x == x % 0x100 + 0x100 * (x / 0x100 % 0x100) + 0x1_0000 * (x / 0x1_0000 % 0x100)
            + 0x100_0000 * (x / 0x100_0000)
  {
    var a, b := x / 0x100, x / 0x1_0000;
    assert b == a / 0x100 && x / 0x100_0000 == b / 0x100;
    assert x == x % 0x100 + 0x100 * a && a == a % 0x100 + 0x100 * b && b == b % 0x100 + 0x100 * (b / 0x100);
  }

  lemma HighNibble(x: int)
    requires 0 <= x < 16
    ensures x as bv8 < 16 && (x as bv8) as int == x
  {
  }

  // ---------- a transfer as one copy ----------

  /** The bytes of n sectors from lba on. */
  function Sectors(disk: seq<Byte>, lba: int, n: int): seq<Byte>
    requires 0 <= lba && 0 <= n && SECTOR * (lba + n) <= |disk|
  {
    disk[SECTOR * lba..SECTOR * (lba + n)]
  }

  /** The disk after data has been written from sector lba on. */
  function Overwritten(disk: seq<Byte>, lba: int, data: seq<Byte>): (r: seq<Byte>)
    requires 0 <= lba && SECTOR * lba + |data| <= |disk|
    ensures |r| == |disk|
  {
    disk[..SECTOR * lba] + data + disk[SECTOR * lba + |data|..]
  }

  /** Reading after writing: a sector that was written has the new bytes, every other one the old. */
  lemma ReadAfterWrite(disk: seq<Byte>, lba: int, n: int, data: seq<Byte>, k: int)
    requires 0 <= lba && 0 <= n && SECTOR * (lba + n) <= |disk| && |data| == SECTOR * n
    requires 0 <= k && SECTOR * (k + 1) <= |disk|
    ensures Sectors(Overwritten(disk, lba, data), lba, n) == data
    ensures Sectors(Overwritten(disk, lba, data), k, 1) ==
            if lba <= k < lba + n then data[SECTOR * (k - lba)..SECTOR * (k - lba) + SECTOR] else Sectors(disk, k, 1)
  {
    var d := Overwritten(disk, lba, data);
    var b := SECTOR * lba;
    assert forall i :: 0 <= i < |data| ==> d[b + i] == data[i];
    assert forall i :: 0 <= i < |d| && !(b <= i < b + |data|) ==> d[i] == disk[i];
    if lba <= k < lba + n {
      assert SECTOR * k == b + SECTOR * (k - lba);
      assert Sectors(d, k, 1) == data[SECTOR * (k - lba)..SECTOR * (k - lba) + SECTOR];
    } else {
      assert Sectors(d, k, 1) == Sectors(disk, k, 1);
    }
  }

  /** Two chunks that follow each other read like one. */
  lemma ChunksTile(disk: seq<Byte>, lba: int, a: int, b: int)
    requires 0 <= lba && 0 <= a && 0 <= b && SECTOR * (lba + a + b) <= |disk|
    ensures Sectors(disk, lba, a) + Sectors(disk, lba + a, b) == Sectors(disk, lba, a + b)
  {
  }

  /** Two chunks that follow each other write like one. */
  lemma WritesTile(disk: seq<Byte>, lba: int, a: int, x: seq<Byte>, y: seq<Byte>)
    requires 0 <= lba && 0 <= a && |x| == SECTOR * a && SECTOR * lba + |x| + |y| <= |disk|
    ensures Overwritten(Overwritten(disk, lba, x), lba + a, y) == Overwritten(disk, lba, x + y)
  {
    var d := Overwritten(disk, lba, x);
    var b := SECTOR * lba;
    assert SECTOR * (lba + a) == b + |x|;
    assert d[..b + |x|] == disk[..b] + x;
    assert d[b + |x| + |y|..] == disk[b + |x| + |y|..];
    assert disk[..b] + x + y == disk[..b] + (x + y);
  }

  // ---------- the handshake ----------

  /** Where the one thread that holds the channel's lock stands. */
  datatype Driver =
    | NoCommand       // no command is under way
    | Armed           // cmd_out: expecting_intr is set, the command byte not yet written
    | Sent            // the command is with the disk
    | Asleep          // in sema_down, on the waiter list

  datatype Channel = Channel(driver: Driver, expecting: bool, done: int, issued: int, upped: int, taken: int)

  datatype Result = Crash | Ok(c: Channel)

  datatype Event =
    | Arm             // cmd_out up to the write of expecting_intr
    | Send            // the write of the command byte
    | Down            // a pass of the loop of sema_down(disk_done)
    | Interrupt       // an interrupt of the channel, whatever its cause

  predicate Enabled(c: Channel, e: Event) {
    match e
    case Arm => c.driver == NoCommand
    case Send => c.driver == Armed
    case Down => c.driver == Sent
    case Interrupt => true
  }

  /** `intr_hd_handler` with the `sema_up` in it; a waiter is woken and will look again. */
  function Handled(c: Channel): Result {
    if !c.expecting then Ok(c)
    else if c.done != 0 then Crash
    else Ok(c.(expecting := false, done := 1, upped := c.upped + 1, driver := if c.driver == Asleep then Sent
        else c.driver))
  }

  function Step(c: Channel, e: Event): Result {
    match e
    case Arm => Ok(c.(driver := Armed, expecting := true, issued := c.issued + 1))
    case Send => Ok(c.(driver := Sent))
    case Down =>
      if c.done == 0 then Ok(c.(driver := Asleep))
      else if c.done - 1 != 0 then Crash
      else Ok(c.(driver := NoCommand, done := 0, taken := c.taken + 1))
    case Interrupt => Handled(c)
  }

  /** Between commands nothing is expected and nothing is pending; during one, exactly one of the
      two holds; a sleeping driver is one whose interrupt is still expected. */
  predicate HandshakeOk(c: Channel) {
    && (c.done == 0 || c.done == 1)
    && (if c.driver == NoCommand then !c.expecting && c.done == 0 else c.expecting != (c.done == 1))
    && (c.driver == Asleep ==> c.expecting)
    && c.issued == c.taken + (if c.driver == NoCommand then 0 else 1)
    && c.upped == c.taken + c.done
  }

  function Run(c: Channel, es: seq<Event>): Result
    decreases |es|
  {
    if es == [] || !Enabled(c, es[0]) then Ok(c)
    else var r := Step(c, es[0]); if r.Crash? then Crash else Run(r.c, es[1..])
  }

  /** Over every run, with interrupts at any time: the assertions of sema_up and sema_down hold, at
      most one of `expecting_intr` and a pending `disk_done` is there, and a command that has ended
      has taken exactly one completion. */
  lemma {:induction false} EveryHandshake(c: Channel, es: seq<Event>)
    requires HandshakeOk(c)
    ensures Run(c, es).Ok? && HandshakeOk(Run(c, es).c)
    ensures var r := Run(c, es).c;
            && !(r.expecting && r.done == 1)
            && (r.driver == NoCommand ==> r.taken == r.issued == r.upped)
    decreases |es|
  {
    if es != [] && Enabled(c, es[0]) {
      EveryHandshake(Step(c, es[0]).c, es[1..]);
    }
  }

  /** No wakeup is lost: the next interrupt wakes a driver that sleeps. */
  lemma SleeperIsWoken(c: Channel)
    requires HandshakeOk(c) && c.driver == Asleep
    ensures Handled(c).Ok? && Handled(c).c.driver == Sent && Handled(c).c.done == 1
    ensures Step(Handled(c).c, Down).Ok? && Step(Handled(c).c, Down).c.driver == NoCommand
  {
  }

  // ---------- the functions of ide.c ----------

  /** The command a disk is at: the byte written to its command register, and what the other registers
      were at that moment. */
  datatype Job = Job(command: Byte, regs: Registers)

  /** A channel with its two disks; `busy_wait` is taken to find the disk ready. */
  class IdeChannel {
    var regs: Registers
    var job: Option<Job>
    var expectingIntr: bool
    var diskDone: int
    var disks: seq<seq<Byte>>
    ghost var issued: int
    ghost var upped: int
    ghost var taken: int

    ghost function C(driver: Driver): Channel
      reads this
    {
      Channel(driver, expectingIntr, diskDone, issued, upped, taken)
    }

    /** No command is under way, and the disks are no larger than the addresses allow. */
    ghost predicate Valid()
      reads this
    {
      HandshakeOk(C(NoCommand)) && |disks| == 2 && |disks[0]| <= SECTOR * (MAX_LBA + 1)
          && |disks[1]| <= SECTOR * (MAX_LBA + 1)
    }

    constructor (disk0: seq<Byte>, disk1: seq<Byte>)
      requires |disk0| <= SECTOR * (MAX_LBA + 1) && |disk1| <= SECTOR * (MAX_LBA + 1)
      ensures Valid() && disks == [disk0, disk1]
    {
      regs, job := Registers(0, 0, 0, 0, 0), None;
      expectingIntr, diskDone, disks, issued, upped, taken := false, 0, [disk0, disk1], 0, 0, 0;
    }

    method SelectDisk(devNo: int)
      requires devNo == 0 || devNo == 1
      modifies this`regs
      ensures DeviceOf(regs) == devNo && InLbaMode(regs)
      ensures regs == old(regs).(dev := regs.dev)
    {
      DevBits(devNo, 0);
      hide DevByte;
      regs := regs.(dev := DevByte(devNo, 0));
    }

    method SelectSector(devNo: int, lba: int, secCnt: Byte)
      requires 0 <= lba <= MAX_LBA
      modifies this`regs
      ensures regs == Selected(devNo, lba, secCnt)
    {
      assert lba <= MAX_LBA;
      regs := regs.(sectCnt := secCnt);
      regs := regs.(lbaL := lba % 0x100);
      regs := regs.(lbaM := lba / 0x100 % 0x100);
      regs := regs.(lbaH := lba / 0x1_0000 % 0x100);
      regs := regs.(dev := DevByte(devNo, (lba / 0x100_0000) as bv8));
    }

    /** `cmd_out`; the byte written makes the disk take the registers as they are now. */
    method CmdOut(cmd: Byte)
      requires HandshakeOk(C(NoCommand))
      modifies this`expectingIntr, this`issued, this`job
      ensures Step(old(C(NoCommand)), Arm) == Ok(C(Armed)) && HandshakeOk(C(Sent))
      ensures job == Some(Job(cmd, regs))
    {
      expectingIntr := true;
      issued := issued + 1;
      job := Some(Job(cmd, regs));
    }

    method IntrHdHandler(ghost driver: Driver)
      requires HandshakeOk(C(driver))
      modifies this`expectingIntr, this`diskDone, this`upped
      ensures Handled(old(C(driver))) == Ok(C(if driver == Asleep && old(expectingIntr) then Sent else driver))
    {
      if expectingIntr {
        expectingIntr := false;
        assert diskDone == 0;
        diskDone := diskDone + 1;
        upped := upped + 1;
        assert diskDone == 1;
      }
    }

    /** `sema_down(disk_done)` after a command was sent: the interrupt comes before or while it waits. */
    method AwaitDone()
      requires HandshakeOk(C(Sent))
      modifies this`expectingIntr, this`diskDone, this`upped, this`taken
      ensures HandshakeOk(C(NoCommand)) && taken == old(taken) + 1
    {
      if diskDone == 0 {
        IntrHdHandler(Asleep);
      }
      diskDone := diskDone - 1;
      taken := taken + 1;
      assert diskDone == 0;
    }

    /** The words the disk gives for a READ SECTOR(S) command, 20h, whose registers are in LBA mode go to
        buf from byte `at` on. */
    method ReadFromSector(buf: array<Byte>, at: int, secCnt: Byte)
      requires |disks| == 2 && job.Some? && job.value.command == 0x20 && AddressOf(job.value.regs).Some?
      requires CountOf(job.value.regs) == if secCnt == 0 then 256 else secCnt
      requires SECTOR * (AddressOf(job.value.regs).value + CountOf(job.value.regs))
               <= |disks[DeviceOf(job.value.regs)]|
      requires 0 <= at && at + SECTOR * CountOf(job.value.regs) <= buf.Length
      modifies buf, this`job
      ensures job == None
      ensures var r := old(job.value.regs);
              buf[..] == old(buf[..at]) + Sectors(disks[DeviceOf(r)], AddressOf(r).value, CountOf(r))
              + old(buf[at + SECTOR * CountOf(job.value.regs)..])
    {
      var sizeInByte := if secCnt == 0 then 256 * 512 else secCnt * 512;
      var start := SECTOR * AddressOf(job.value.regs).value;
      var data := disks[DeviceOf(job.value.regs)][start..start + SECTOR * CountOf(job.value.regs)];
      assert |data| == sizeInByte;
      job := None;
      ghost var before := buf[..];
      var i := 0;
      while i < sizeInByte / 2
        invariant 0 <= i <= sizeInByte / 2
        invariant forall j :: 0 <= j < 2 * i ==> buf[at + j] == data[j]
        invariant forall j :: 0 <= j < buf.Length && !(at <= j < at + 2 * i) ==> buf[j] == before[j]
        modifies buf
      {
        buf[at + 2 * i] := data[2 * i];
        buf[at + 2 * i + 1] := data[2 * i + 1];
        i := i + 1;
      }
      assert buf[..] == before[..at] + data + before[at + sizeInByte..];
    }

    /** The words of buf from byte `at` on go to the disk for a WRITE SECTOR(S) command, 30h, whose
        registers are in LBA mode. */
    method Write2Sector(buf: array<Byte>, at: int, secCnt: Byte)
      requires |disks| == 2 && job.Some? && job.value.command == 0x30 && AddressOf(job.value.regs).Some?
      requires CountOf(job.value.regs) == if secCnt == 0 then 256 else secCnt
      requires SECTOR * (AddressOf(job.value.regs).value + CountOf(job.value.regs))
               <= |disks[DeviceOf(job.value.regs)]|
      requires 0 <= at && at + SECTOR * CountOf(job.value.regs) <= buf.Length
      modifies this`disks, this`job
      ensures job == None
      ensures var r := old(job.value.regs);
              disks == old(disks)[DeviceOf(r) := Overwritten(old(disks)[DeviceOf(r)], AddressOf(r).value,
              buf[at..at + SECTOR * CountOf(r)])]
    {
      var sizeOutByte := if secCnt == 0 then 256 * 512 else secCnt * 512;
      var dev, start := DeviceOf(job.value.regs), SECTOR * AddressOf(job.value.regs).value;
      var disk := disks[dev];
      job := None;
      disks := disks[dev := disk[..start] + buf[at..at + sizeOutByte] + disk[start + sizeOutByte..]];
    }

    /** One chunk of `ide_read` behind the secsDone sectors that are in the buffer. */
    method ReadChunk(devNo: int, lba: int, buf: array<Byte>, secsDone: int, secsOp: int, ready: bool)
      returns (ok: bool)
      requires Valid() && (devNo == 0 || devNo == 1) && 0 <= secsDone && 0 < secsOp <= 256
      requires 0 <= lba && SECTOR * (lba + secsDone + secsOp) <= |disks[devNo]|
               && SECTOR * (secsDone + secsOp) <= buf.Length
      requires buf[..SECTOR * secsDone] == Sectors(disks[devNo], lba, secsDone)
      modifies this, buf
      ensures Valid() && disks == old(disks) && ok == ready
      ensures if ok then buf[..SECTOR * (secsDone + secsOp)] == Sectors(disks[devNo], lba, secsDone + secsOp)
              else buf[..] == old(buf[..])
    {
      hide Selected, AddressOf, CountOf, DeviceOf, InLbaMode, Overwritten, HandshakeOk;
      SelectRoundTrip(devNo, lba + secsDone, secsOp);
      SelectSector(devNo, lba + secsDone, secsOp % 0x100);
      CmdOut(CMD_READ_SECTOR);
      AwaitDone();
      if !ready {
        return false;
      }
      ok := true;
      ghost var before := buf[..];
      ReadFromSector(buf, SECTOR * secsDone, secsOp % 0x100);
      ChunkRead(disks[devNo], lba, secsDone, secsOp, before, buf[..]);
      assert buf[..SECTOR * (secsDone + secsOp)] == buf[..][..SECTOR * (secsDone + secsOp)];
    }

    /** `ide_read`: any number of sectors is one contiguous copy, and each chunk's command takes one
        completion. `ready` is what busy_wait answers in each chunk; the first one that finds the disk not
        ready stops the kernel, with the sectors before it in the buffer. */
    method IdeRead(devNo: int, lba: int, buf: array<Byte>, secCnt: int, ready: int -> bool) returns (secsDone: int)
      requires Valid() && (devNo == 0 || devNo == 1)
      requires 0 <= lba <= MAX_LBA && 0 < secCnt && SECTOR * (lba + secCnt) <= |disks[devNo]|
               && buf.Length == SECTOR * secCnt
      modifies this, buf
      ensures StopsAt(secCnt, ready, secsDone)
      ensures Valid() && disks == old(disks)
      ensures buf[..SECTOR * secsDone] == Sectors(disks[devNo], lba, secsDone)
      ensures secsDone == secCnt ==> buf[..] == Sectors(disks[devNo], lba, secCnt)
    {
      hide Selected, AddressOf, CountOf, DeviceOf, InLbaMode, Overwritten, HandshakeOk;
      ghost var disk := disks[devNo];
      SelectDisk(devNo);
      secsDone := 0;
      while secsDone < secCnt
        invariant 0 <= secsDone <= secCnt && Valid() && disks == old(disks) && AllReady(secCnt, ready, secsDone)
        invariant buf[..SECTOR * secsDone] == Sectors(disk, lba, secsDone)
      {
        var secsOp := if secsDone + 256 <= secCnt then 256 else secCnt - secsDone;
        var ok := ReadChunk(devNo, lba, buf, secsDone, secsOp, ready(secsDone));
        if !ok {
          return;
        }
        secsDone := secsDone + secsOp;
      }
      assert buf[..SECTOR * secsDone] == buf[..];
    }

    /** One chunk of `ide_write` behind the secsDone sectors that are written. */
    method WriteChunk(devNo: int, lba: int, buf: array<Byte>, secsDone: int, secsOp: int, ready: bool,
                      ghost disk: seq<Byte>) returns (ok: bool)
      requires Valid() && (devNo == 0 || devNo == 1) && 0 <= secsDone && 0 < secsOp <= 256
      requires 0 <= lba && SECTOR * (lba + secsDone + secsOp) <= |disk| == |disks[devNo]|
               && SECTOR * (secsDone + secsOp) <= buf.Length
      requires disks[devNo] == Overwritten(disk, lba, buf[..SECTOR * secsDone])
      modifies this
      ensures ok == ready && (ok ==> Valid()) && (!ok ==> disks == old(disks))
      ensures ok ==> disks == old(disks)[devNo := Overwritten(disk, lba, buf[..SECTOR * (secsDone + secsOp)])]
    {
      hide Selected, AddressOf, CountOf, DeviceOf, InLbaMode, Sectors, Overwritten, HandshakeOk;
      SelectRoundTrip(devNo, lba + secsDone, secsOp);
      SelectSector(devNo, lba + secsDone, secsOp % 0x100);
      CmdOut(CMD_WRITE_SECTOR);
      if !ready {
        return false;
      }
      ok := true;
      Write2Sector(buf, SECTOR * secsDone, secsOp % 0x100);
      AwaitDone();
      WritesTile(disk, lba, secsDone, buf[..SECTOR * secsDone], buf[SECTOR * secsDone..SECTOR * (secsDone + secsOp)]);
      assert buf[..SECTOR * secsDone] + buf[SECTOR * secsDone..SECTOR * (secsDone + secsOp)]
          == buf[..SECTOR * (secsDone + secsOp)];
    }

    /** `ide_write`, likewise: afterwards exactly the sectors from lba on hold the buffer, or its first
        chunks when the kernel stops. */
    method IdeWrite(devNo: int, lba: int, buf: array<Byte>, secCnt: int, ready: int -> bool) returns (secsDone: int)
      requires Valid() && (devNo == 0 || devNo == 1)
      requires 0 <= lba <= MAX_LBA && 0 < secCnt && SECTOR * (lba + secCnt) <= |disks[devNo]|
               && buf.Length == SECTOR * secCnt
      modifies this
      ensures StopsAt(secCnt, ready, secsDone) && (secsDone == secCnt ==> Valid())
      ensures disks == old(disks)[devNo := Overwritten(old(disks)[devNo], lba, buf[..SECTOR * secsDone])]
      ensures secsDone == secCnt ==> disks == old(disks)[devNo := Overwritten(old(disks)[devNo], lba, buf[..])]
    {
      hide Selected, AddressOf, CountOf, DeviceOf, InLbaMode, Sectors, Overwritten, HandshakeOk;
      ghost var disk := disks[devNo];
      SelectDisk(devNo);
      secsDone := 0;
      NothingWritten(disk, lba);
      while secsDone < secCnt
        invariant 0 <= secsDone <= secCnt && Valid() && AllReady(secCnt, ready, secsDone)
        invariant disks == old(disks)[devNo := Overwritten(disk, lba, buf[..SECTOR * secsDone])]
      {
        var secsOp := if secsDone + 256 <= secCnt then 256 else secCnt - secsDone;
        var ok := WriteChunk(devNo, lba, buf, secsDone, secsOp, ready(secsDone), disk);
        if !ok {
          return;
        }
        secsDone := secsDone + secsOp;
      }
      assert buf[..SECTOR * secsDone] == buf[..];
    }
  }

  /** The chunks before that sector found the disk ready. */
  ghost predicate AllReady(secCnt: int, ready: int -> bool, secsDone: int) {
    && 0 <= secsDone <= secCnt && (secsDone % 256 == 0 || secsDone == secCnt)
    && forall k :: 0 <= k < secsDone && k % 256 == 0 ==> ready(k)
  }

  /** A transfer stops at the first chunk that finds the disk not ready, and else at its end. */
  ghost predicate StopsAt(secCnt: int, ready: int -> bool, secsDone: int) {
    AllReady(secCnt, ready, secsDone) && (secsDone < secCnt ==> !ready(secsDone))
  }

  lemma NothingWritten(disk: seq<Byte>, lba: int)
    requires 0 <= lba && SECTOR * lba <= |disk|
    ensures Overwritten(disk, lba, []) == disk
  {
  }

  /** A chunk read behind the part of the buffer that is done. */
  lemma ChunkRead(disk: seq<Byte>, lba: int, done: int, n: int, before: seq<Byte>, after: seq<Byte>)
    requires 0 <= lba && 0 <= done && 0 <= n && SECTOR * (lba + done + n) <= |disk| && SECTOR * (done + n) <= |before|
    requires before[..SECTOR * done] == Sectors(disk, lba, done)
    requires after == before[..SECTOR * done] + Sectors(disk, lba + done, n) + before[SECTOR * done + SECTOR * n..]
    ensures |after| == |before| && after[..SECTOR * (done + n)] == Sectors(disk, lba, done + n)
  {
    ChunksTile(disk, lba, done, n);
  }
}
