/** Disk addressing: disk.c of the boot loader and ide.c of the kernel. */
module Disk {
  import opened Basics

  // ----- LBA to CHS -----

  datatype Chs = Chs(cylinder: nat, head: nat, sector: nat)

  /** DISK_LBA2CHS: the cylinder is stored in 16 bits. */
  method LBA2CHS(heads: nat, sectors: nat, lba: nat) returns (chs: Chs)
    requires 0 < heads < 0x10000 && 0 < sectors < 0x10000 && lba < 0x1_0000_0000
    ensures chs == ToChs(heads, sectors, lba)
  {
    DivTwice(lba, heads, sectors);
    var cylinder := lba / (heads * sectors) % 0x10000;
    var head := lba / sectors % heads;
    var sector := lba % sectors + 1;
    chs := Chs(cylinder, head, sector);
  }

  function ToChs(heads: nat, sectors: nat, lba: nat): Chs
    requires 0 < heads && 0 < sectors
  {
    Chs(lba / sectors / heads % 0x10000, lba / sectors % heads, lba % sectors + 1)
  }

  function FromChs(heads: nat, sectors: nat, chs: Chs): int
  {
    (chs.cylinder * heads + chs.head) * sectors + chs.sector - 1
  }

  /** The address is in range, and it names the sector asked for if and only if the cylinder fits
      16 bits. */
  lemma ChsRoundTripIff(heads: nat, sectors: nat, lba: nat)
    requires 0 < heads && 0 < sectors
    ensures ToChs(heads, sectors, lba).head < heads && 1 <= ToChs(heads, sectors, lba).sector <= sectors
    ensures var chs := ToChs(heads, sectors, lba);
      && FromChs(heads, sectors, chs) == (chs.cylinder * heads + chs.head) * sectors + chs.sector - 1
      && ((chs.cylinder * heads + chs.head) * sectors + chs.sector - 1 == lba <==> lba / (heads * sectors) < 0x10000)
  {
    DivTwice(lba, heads, sectors);
    var q, c := lba / sectors, lba / sectors / heads;
    QuotientParts(lba, sectors);
    QuotientParts(q, heads);
    WrongCylinder(q, c, heads, q % heads, sectors, lba % sectors);
  }

  lemma QuotientParts(a: nat, d: nat)
    requires 0 < d
    ensures a == a / d * d + a % d && a % d < d
  {
  }

  lemma WrongCylinder(q: nat, c: nat, heads: nat, h: nat, sectors: nat, r: nat)
    requires q == c * heads + h && h < heads && r < sectors
    ensures (c % 0x10000 * heads + h) * sectors + r == q * sectors + r <==> c < 0x10000
  {
    var stored := c % 0x10000;
    if stored < c {
      Smaller(stored, c, heads, h);
      Smaller(stored * heads + h, q, sectors, r);
    }
  }

  lemma Smaller(a: nat, b: nat, width: nat, rest: nat)
    requires a < b && rest < width
    ensures a * width + rest < b * width + rest && a * width + rest < b * width
  {
    MulMonotone(a + 1, b, width, width);
  }

  // ----- IDE -----

  /** The registers of ide.c. */
  const SECCOUNT0: nat := 0x02
  const LBA0: nat := 0x03
  const LBA1: nat := 0x04
  const LBA2: nat := 0x05
  const HDDEVSEL: nat := 0x06
  const COMMAND: nat := 0x07
  const SECCOUNT1: nat := 0x08
  const LBA3: nat := 0x09
  const LBA4: nat := 0x0a
  const LBA5: nat := 0x0b
  const CONTROL: nat := 0x0c

  const NO_INTERRUPTS: nat := 0x02

  datatype Bus = Base | Ctrl | BusMaster

  /** One i686_outb: the bus, the offset from its first port, the byte. */
  datatype Out = Out(bus: Bus, offset: nat, data: Byte)

  /** The writes of IDE_Write: registers 8 to 11 share the ports of 2 to 5, between two writes of
      the control register. */
  function RegisterWrites(reg: nat, data: Byte): seq<Out>
    requires reg < 0x16
  {
    if reg < 0x8 then [Out(Base, reg, data)]
    else if reg < 0xc then
      [Out(Ctrl, 2, 0x82), Out(Base, reg - 0x6, data), Out(Ctrl, 2, NO_INTERRUPTS)]
    else if reg < 0xe then [Out(Ctrl, reg - 0xa, data)]
    else [Out(BusMaster, reg - 0xe, data)]
  }

  datatype Mode = CHS | LBA28 | LBA48

  datatype Address = Address(mode: Mode, regs: seq<Byte>, head: Byte)

  /** The address-mode split of IDE_Access. */
  function Split(lba: nat, supportsLBA: bool): (r: Address)
    requires lba < 0x1_0000_0000
    ensures |r.regs| == 6 && r.head < 16
  {
    if lba >= 0x10000000 then
      Address(LBA48, [lba % 256, lba / 0x100 % 256, lba / 0x10000 % 256, lba / 0x1000000, 0, 0], 0)
    else if supportsLBA then
      Address(LBA28, [lba % 256, lba / 0x100 % 256, lba / 0x10000 % 256, 0, 0, 0], lba / 0x1000000)
    else
      var sector := lba % 63 + 1;
      var cylinder := (lba + 1 - sector) / (16 * 63) % 0x10000;
      Address(CHS, [sector, cylinder % 256, cylinder / 256, 0, 0, 0], (lba + 1 - sector) % (16 * 63) / 63)
  }

  function Put(w: seq<Out>, reg: nat, data: Byte): seq<Out>
    requires reg < 0x16
  {
    w + RegisterWrites(reg, data)
  }

  /** The ports after all register writes up to the command, in order. */
  function AfterAccess(w: seq<Out>, a: Address, drive: nat, sectorCount: Byte, command: Byte): seq<Out>
    requires |a.regs| == 6 && a.head < 16 && drive < 2
  {
    var w := Put(w, CONTROL, NO_INTERRUPTS);
    var w := Put(w, HDDEVSEL, (if a.mode == CHS then 0xa0 else 0xe0) + 16 * drive + a.head);
    var w := if a.mode == LBA48
             then Put(Put(Put(Put(w, SECCOUNT1, 0), LBA3, a.regs[3]), LBA4, a.regs[4]), LBA5, a.regs[5])
             else w;
    var w := Put(w, SECCOUNT0, sectorCount);
    var w := Put(w, LBA0, a.regs[0]);
    var w := Put(w, LBA1, a.regs[1]);
    var w := Put(w, LBA2, a.regs[2]);
    Put(w, COMMAND, command)
  }

  // ----- Drives -----

  /** The fields of an entry of `devices` that an access looks at. */
  datatype Drive = Drive(reserved: bool, drive: nat, capabilities: nat)

  /** Capability bit 9: the drive understands LBA. */
  predicate HasLBA(d: Drive)
  {
    d.capabilities / 0x200 % 2 == 1
  }

  predicate DriveTable(devices: seq<Drive>)
  {
    |devices| == 4 && forall i :: 0 <= i < 4 ==> devices[i].drive < 2
  }

  /** The capability the code goes by: that of the entry whose index is the drive's number on its
      channel. */
  predicate TestedLBA(devices: seq<Drive>, driveNumber: nat)
    requires DriveTable(devices) && driveNumber < 4
  {
    HasLBA(devices[devices[driveNumber].drive])
  }

  /** The address mode is the one that suits the drive if and only if the entry that is tested says
      the same as the drive's own, or the address is past 28 bits. */
  lemma ModeSuitsDriveIff(devices: seq<Drive>, driveNumber: nat, lba: nat)
    requires DriveTable(devices) && driveNumber < 4 && lba < 0x1_0000_0000
    ensures Split(lba, TestedLBA(devices, driveNumber)) == Split(lba, HasLBA(devices[driveNumber])) <==>
            (TestedLBA(devices, driveNumber) <==> HasLBA(devices[driveNumber])) || lba >= 0x10000000
  {
  }

  /** A single drive, the second one of its channel, is entry 0 with drive number 1; entry 1 is empty,
      so its sectors are addressed by cylinder, head and sector although it understands LBA. */
  lemma SecondDriveAlone()
    ensures var empty := Drive(false, 0, 0);
      var devices := [Drive(true, 1, 0x200), empty, empty, empty];
      && HasLBA(devices[0]) && Split(0, TestedLBA(devices, 0)).mode == CHS
  {
    assert 0x200 / 0x200 % 2 == 1;
  }

  class Channel {
    /** What has been written to the ports. */
    var written: seq<Out>

    constructor ()
      ensures written == []
    {
      written := [];
    }

    /** IDE_Write. */
    method Write(reg: nat, data: Byte)
      requires reg < 0x16
      modifies this
      ensures written == Put(old(written), reg, data)
      decreases if 0x7 < reg < 0xc then 1 else 0
    {
      if reg > 0x7 && reg < 0xc {
        Write(CONTROL, 0x82);
      }
      if reg < 0x8 {
        written := written + [Out(Base, reg, data)];
      } else if reg < 0xc {
        written := written + [Out(Base, reg - 0x6, data)];
      } else if reg < 0xe {
        written := written + [Out(Ctrl, reg - 0xa, data)];
      } else {
        written := written + [Out(BusMaster, reg - 0xe, data)];
      }
      if reg > 0x7 && reg < 0xc {
        Write(CONTROL, NO_INTERRUPTS);
      }
    }

    /** IDE_Access up to the command, on the channel of the drive; it fails at once for a drive that
        is not there. */
    method Access(devices: seq<Drive>, driveNumber: nat, write: bool, lba: nat, sectorCount: Byte)
      returns (failed: bool)
      requires DriveTable(devices) && driveNumber < 4 && lba < 0x1_0000_0000
      modifies this
      ensures failed == !devices[driveNumber].reserved
      ensures failed ==> written == old(written)
      ensures !failed ==>
        var a := Split(lba, TestedLBA(devices, driveNumber));
        written == AfterAccess(old(written), a, devices[driveNumber].drive, sectorCount, CommandFor(a.mode, write))
    {
      hide Split, Put;
      if !devices[driveNumber].reserved { return true; }
      var drive := devices[driveNumber].drive;
      var a := Split(lba, HasLBA(devices[drive]));
      Write(CONTROL, NO_INTERRUPTS);
      if a.mode == CHS {
        Write(HDDEVSEL, 0xa0 + 16 * drive + a.head);
      } else {
        Write(HDDEVSEL, 0xe0 + 16 * drive + a.head);
      }
      if a.mode == LBA48 {
        Write(SECCOUNT1, 0);
        Write(LBA3, a.regs[3]);
        Write(LBA4, a.regs[4]);
        Write(LBA5, a.regs[5]);
      }
      Write(SECCOUNT0, sectorCount);
      Write(LBA0, a.regs[0]);
      Write(LBA1, a.regs[1]);
      Write(LBA2, a.regs[2]);
      Write(COMMAND, CommandFor(a.mode, write));
      failed := false;
    }
  }

  /** The PIO commands, with their 48-bit forms. */
  function CommandFor(mode: Mode, write: bool): Byte
  {
    if write then (if mode == LBA48 then 0x34 else 0x30) else (if mode == LBA48 then 0x24 else 0x20)
  }

  // ----- The device -----

  /** A register of the device that remembers the value before the last one written. */
  datatype Latch = Latch(current: Byte, previous: Byte)

  datatype Device = Device(count: Latch, low: Latch, mid: Latch, high: Latch, select: Byte, command: Byte)

  function Push(l: Latch, data: Byte): Latch
  {
    Latch(data, l.current)
  }

  function Receive(dev: Device, o: Out): Device
  {
    if o.bus != Base then dev
    else if o.offset == 2 then dev.(count := Push(dev.count, o.data))
    else if o.offset == 3 then dev.(low := Push(dev.low, o.data))
    else if o.offset == 4 then dev.(mid := Push(dev.mid, o.data))
    else if o.offset == 5 then dev.(high := Push(dev.high, o.data))
    else if o.offset == 6 then dev.(select := o.data)
    else if o.offset == 7 then dev.(command := o.data)
    else dev
  }

  function ReceiveAll(dev: Device, os: seq<Out>): Device
    decreases |os|
  {
    if os == [] then dev else ReceiveAll(Receive(dev, os[0]), os[1..])
  }

  function Join(low: nat, high: nat): nat
  {
    low + 0x100 * high
  }

  /** The sector a device understands from its registers: bit 6 of the select register says LBA;
      the 48-bit commands use the previous values too. A CHS drive has 16 heads and 63 sectors. */
  function Decoded(dev: Device): int
  {
    if dev.command == 0x24 || dev.command == 0x34 then
      dev.low.current + 0x100 * dev.mid.current + 0x10000 * dev.high.current +
      0x1000000 * dev.low.previous + 0x100000000 * dev.mid.previous + 0x10000000000 * dev.high.previous
    else if dev.select / 64 % 2 == 1 then
      dev.low.current + 0x100 * dev.mid.current + 0x10000 * dev.high.current + 0x1000000 * (dev.select % 16)
    else
      FromChs(16, 63, Chs(Join(dev.mid.current, dev.high.current), dev.select % 16, dev.low.current))
  }

  lemma {:induction false} ReceiveConcat(dev: Device, s: seq<Out>, t: seq<Out>)
    ensures ReceiveAll(dev, s + t) == ReceiveAll(ReceiveAll(dev, s), t)
    decreases |s|
  {
    if s == [] {
      assert s + t == t;
    } else {
      assert (s + t)[1..] == s[1..] + t;
      ReceiveConcat(Receive(dev, s[0]), s[1..], t);
    }
  }

  /** The device's view of one register write. */
  function Register(dev: Device, reg: nat, data: Byte): Device
  {
    if reg >= 0xc then dev else Receive(dev, Out(Base, if reg < 0x8 then reg else reg - 0x6, data))
  }

  lemma PutReceived(dev: Device, w: seq<Out>, reg: nat, data: Byte)
    requires reg < 0x16
    ensures ReceiveAll(dev, Put(w, reg, data)) == Register(ReceiveAll(dev, w), reg, data)
  {
    var os := RegisterWrites(reg, data);
    ReceiveConcat(dev, w, os);
    var d := ReceiveAll(dev, w);
    if 0x8 <= reg < 0xc {
      assert os[1..] == [os[1], os[2]] && [os[1], os[2]][1..] == [os[2]];
      assert ReceiveAll(Receive(d, os[1]), [os[2]]) == Receive(d, os[1]);
      assert ReceiveAll(d, os) == ReceiveAll(d, os[1..]);
    } else {
      assert ReceiveAll(d, os) == Receive(d, os[0]);
    }
  }

  function RegisterAll(dev: Device, a: Address, drive: nat, sectorCount: Byte, command: Byte): Device
    requires |a.regs| == 6 && a.head < 16 && drive < 2
  {
    var d := Register(dev, HDDEVSEL, (if a.mode == CHS then 0xa0 else 0xe0) + 16 * drive + a.head);
    var d := if a.mode == LBA48
             then
               var d := Register(Register(d, SECCOUNT1, 0), LBA3, a.regs[3]);
               Register(Register(d, LBA4, a.regs[4]), LBA5, a.regs[5])
             else d;
    var d := Register(d, SECCOUNT0, sectorCount);
    var d := Register(d, LBA0, a.regs[0]);
    var d := Register(d, LBA1, a.regs[1]);
    var d := Register(d, LBA2, a.regs[2]);
    Register(d, COMMAND, command)
  }

  lemma AccessReceived(dev: Device, a: Address, drive: nat, sectorCount: Byte, command: Byte)
    requires |a.regs| == 6 && a.head < 16 && drive < 2
    ensures ReceiveAll(dev, AfterAccess([], a, drive, sectorCount, command)) ==
      RegisterAll(dev, a, drive, sectorCount, command)
  {
    hide Put, ReceiveAll;
    forall w: seq<Out>, reg: nat, data: Byte | reg < 0x16
      ensures ReceiveAll(dev, Put(w, reg, data)) == Register(ReceiveAll(dev, w), reg, data)
    {
      PutReceived(dev, w, reg, data);
    }
    assert ReceiveAll(dev, []) == dev by { NothingReceived(dev); }
    hide Register;
  }

  lemma NothingReceived(dev: Device)
    ensures ReceiveAll(dev, []) == dev
  {
  }

  lemma Bytes32(lba: nat)
    requires lba < 0x1_0000_0000
    ensures lba ==
      lba % 256 + 0x100 * (lba / 0x100 % 256) + 0x10000 * (lba / 0x10000 % 256) + 0x1000000 * (lba / 0x1000000)
  {
    assert lba / 0x100 / 0x100 == lba / 0x10000;
    assert lba / 0x10000 / 0x100 == lba / 0x1000000;
  }

  /** The split into a CHS address is the division by 16 heads of 63 sectors. */
  lemma SplitChs(lba: nat)
    requires lba < 0x10000000
    ensures var a := Split(lba, false);
      Chs(Join(a.regs[1], a.regs[2]), a.head, a.regs[0]) == ToChs(16, 63, lba)
  {
    var q, r := lba / 63, lba % 63;
    assert lba + 1 - (r + 1) == 63 * q;
    assert 63 * q / (16 * 63) == q / 16;
    assert 63 * q % (16 * 63) / 63 == q % 16;
  }

  /** What the registers hold when the command arrives. */
  lemma RegistersSet(dev: Device, a: Address, drive: nat, sectorCount: Byte, command: Byte)
    requires |a.regs| == 6 && a.head < 16 && drive < 2
    ensures var d := RegisterAll(dev, a, drive, sectorCount, command);
      && d.low.current == a.regs[0] && d.mid.current == a.regs[1] && d.high.current == a.regs[2]
      && d.select == (if a.mode == CHS then 0xa0 else 0xe0) + 16 * drive + a.head && d.command == command
      && (a.mode == LBA48 ==>
            d.low.previous == a.regs[3] && d.mid.previous == a.regs[4] && d.high.previous == a.regs[5])
      && d.count.current == sectorCount && (a.mode == LBA48 ==> d.count.previous == 0)
  {
  }

  /** When the command arrives it is a read exactly if nothing is to be written, in its 48-bit form exactly
      if the address takes more than 28 bits; the drive asked for is selected, and the sector count
      is the one asked for. The first write of all keeps the drive from interrupting. */
  lemma DeviceIsAsked(dev: Device, lba: nat, supportsLBA: bool, drive: nat, sectorCount: Byte, write: bool)
    requires lba < 0x1_0000_0000 && drive < 2
    ensures var a := Split(lba, supportsLBA);
      var os := AfterAccess([], a, drive, sectorCount, CommandFor(a.mode, write));
      var d := ReceiveAll(dev, os);
      && (d.command in {0x20, 0x24} <==> !write) && (d.command in {0x30, 0x34} <==> write)
      && (d.command in {0x24, 0x34} <==> lba >= 0x10000000)
      && d.select / 16 % 2 == drive && (d.select / 64 % 2 == 0 <==> lba < 0x10000000 && !supportsLBA)
      && d.count.current == sectorCount && (lba >= 0x10000000 ==> d.count.previous == 0 && d.select % 16 == 0)
      && os != [] && os[0] == Out(Ctrl, 2, 0x02)
  {
    hide ReceiveAll, RegisterAll;
    var a := Split(lba, supportsLBA);
    var command := CommandFor(a.mode, write);
    FirstWrite(a, drive, sectorCount, command);
    hide AfterAccess;
    AccessReceived(dev, a, drive, sectorCount, command);
    RegistersSet(dev, a, drive, sectorCount, command);
    SelectBits(if a.mode == CHS then 0xa0 else 0xe0, drive, a.head);
    DriveBit(if a.mode == CHS then 0xa0 else 0xe0, drive, a.head);
  }

  lemma FirstWrite(a: Address, drive: nat, sectorCount: Byte, command: Byte)
    requires |a.regs| == 6 && a.head < 16 && drive < 2
    ensures var os := AfterAccess([], a, drive, sectorCount, command); os != [] && os[0] == Out(Ctrl, 2, 0x02)
  {
    hide RegisterWrites;
    assert RegisterWrites(CONTROL, NO_INTERRUPTS) == [Out(Ctrl, 2, 0x02)] by { ControlWrite(); }
    assert Put([], CONTROL, NO_INTERRUPTS)[0] == Out(Ctrl, 2, 0x02);
  }

  lemma ControlWrite()
    ensures RegisterWrites(CONTROL, NO_INTERRUPTS) == [Out(Ctrl, 2, 0x02)]
  {
  }

  lemma DriveBit(base: nat, drive: nat, head: nat)
    requires base in {0xa0, 0xe0} && drive < 2 && head < 16
    ensures (base + 16 * drive + head) / 16 % 2 == drive
  {
    DivUnique(base + 16 * drive + head, 16, base / 16 + drive, head);
  }

  lemma SelectBits(base: nat, drive: nat, head: nat)
    requires base in {0xa0, 0xe0} && drive < 2 && head < 16
    ensures (base + 16 * drive + head) % 16 == head
    ensures (base + 16 * drive + head) / 64 % 2 == 1 <==> base == 0xe0
  {
    if drive == 0 {
      assert (base + head) / 64 == base / 64;
    } else {
      assert (base + 16 + head) / 64 == base / 64;
    }
  }

  /** Whatever the device's registers held before, it understands the address that was asked for:
      in the LBA modes always, in CHS mode if and only if the cylinder fits 16 bits. */
  lemma AccessAddressesSectorIff(dev: Device, lba: nat, supportsLBA: bool, drive: nat, sectorCount: Byte, write: bool)
    requires lba < 0x1_0000_0000 && drive < 2
    ensures var a := Split(lba, supportsLBA);
      Decoded(ReceiveAll(dev, AfterAccess([], a, drive, sectorCount, CommandFor(a.mode, write)))) == lba
      <==> a.mode != CHS || lba / (16 * 63) < 0x10000
  {
    hide ReceiveAll, AfterAccess, RegisterAll;
    var a := Split(lba, supportsLBA);
    var command := CommandFor(a.mode, write);
    AccessReceived(dev, a, drive, sectorCount, command);
    RegistersSet(dev, a, drive, sectorCount, command);
    SelectBits(if a.mode == CHS then 0xa0 else 0xe0, drive, a.head);
    DecodedIff(RegisterAll(dev, a, drive, sectorCount, command), lba, supportsLBA, write);
  }

  lemma DecodedIff(d: Device, lba: nat, supportsLBA: bool, write: bool)
    requires lba < 0x1_0000_0000
    requires var a := Split(lba, supportsLBA);
      && d.low.current == a.regs[0] && d.mid.current == a.regs[1] && d.high.current == a.regs[2]
      && d.select % 16 == a.head && (d.select / 64 % 2 == 1 <==> a.mode != CHS)
      && d.command == CommandFor(a.mode, write)
      && (a.mode == LBA48 ==>
            d.low.previous == a.regs[3] && d.mid.previous == a.regs[4] && d.high.previous == a.regs[5])
    ensures Decoded(d) == lba <==> Split(lba, supportsLBA).mode != CHS || lba / (16 * 63) < 0x10000
  {
    if Split(lba, supportsLBA).mode == CHS {
      SplitChs(lba);
      hide Split, FromChs, ToChs;
      ChsRoundTripIff(16, 63, lba);
    } else {
      Bytes32(lba);
      SplitBytes(lba, supportsLBA);
      hide Split;
    }
  }

  lemma SplitBytes(lba: nat, supportsLBA: bool)
    requires lba < 0x1_0000_0000
    ensures var a := Split(lba, supportsLBA);
      a.mode != CHS ==>
        && a.regs[0] == lba % 256 && a.regs[1] == lba / 0x100 % 256 && a.regs[2] == lba / 0x10000 % 256
        && (a.mode == LBA48 ==> a.regs[3] == lba / 0x1000000 && a.regs[4] == 0 && a.regs[5] == 0)
        && (a.mode == LBA28 ==> a.head == lba / 0x1000000)
  {
  }
}
