/** The devices of the DSDT: their bytes and their writers. */
module AcpiDevices {
  import opened Outcomes
  import opened Words
  import opened Buffers
  import opened AcpiCore
  import opened Aml
  import opened DeviceTree

  const MOTHERBOARD_BYTES: nat := 84
  const VIRTIO_BYTES: nat := 98
  const SERIAL_BYTES: nat := 201
  const MOTHERBOARD_CRS: nat := QWORD_MEMORY_BYTES + END_TAG_BYTES
  const UART_CRS: nat := QWORD_MEMORY_BYTES + EXTENDED_INTERRUPT_BYTES + END_TAG_BYTES

  // ---- motherboard resources ----

  function MotherboardDevice(index: byte, base: u64, size: u64): (b: seq<byte>)
    requires base + size < U64_LIMIT
    ensures |b| == MOTHERBOARD_BYTES
  {
    DeviceHeader(NameSegIndexed(Ascii("MBR"), index), MOTHERBOARD_BYTES)
    + NameDword(Ascii("_HID"), EisaId(Ascii("PNP0C02"))) + NameByte(Ascii("_UID"), index)
    + CrsHeader(MOTHERBOARD_CRS) + QwordMemory(base, size) + EndTag()
  }

  method WriteMotherboard(buf: array<byte>, s: Slot, pos: nat, index: byte, base: u64, size: u64, ghost w: Trace)
    returns (r: Result<nat, DtbError>)
    requires Writing(buf[..], w, pos) && w.slot == s
    modifies buf
    ensures r.Success? <==> base + size < U64_LIMIT && pos + MOTHERBOARD_BYTES <= s.len
    ensures r.Success? ==> r.value == pos + MOTHERBOARD_BYTES && Writing(buf[..], Then(w, MotherboardDevice(index, base, size)), r.value)
  {
    hide Writing, Then, DeviceHeader, NameDword, NameByte, CrsHeader, QwordMemory, EndTag, Ascii, EisaId, NameSegIndexed;
    ghost var acc := DeviceHeader(NameSegIndexed(Ascii("MBR"), index), MOTHERBOARD_BYTES);
    var p :- WriteDeviceHeader(buf, s, pos, NameSegIndexed(Ascii("MBR"), index), MOTHERBOARD_BYTES, w);
    p :- WriteNameDword(buf, s, p, Ascii("_HID"), EisaId(Ascii("PNP0C02")), Then(w, acc));
    JoinThen(w, acc, NameDword(Ascii("_HID"), EisaId(Ascii("PNP0C02"))));
    acc := acc + NameDword(Ascii("_HID"), EisaId(Ascii("PNP0C02")));
    p :- WriteNameByte(buf, s, p, Ascii("_UID"), index, Then(w, acc));
    JoinThen(w, acc, NameByte(Ascii("_UID"), index));
    acc := acc + NameByte(Ascii("_UID"), index);
    p :- WriteCrsHeader(buf, s, p, MOTHERBOARD_CRS, Then(w, acc));
    JoinThen(w, acc, CrsHeader(MOTHERBOARD_CRS));
    acc := acc + CrsHeader(MOTHERBOARD_CRS);
    p :- WriteQwordMemory(buf, s, p, base, size, Then(w, acc));
    JoinThen(w, acc, QwordMemory(base, size));
    acc := acc + QwordMemory(base, size);
    p :- WriteBytes(buf, s, p, EndTag(), Then(w, acc));
    JoinThen(w, acc, EndTag());
    return Success(p);
  }

  // ---- PCI host bridges ----

  /** The descriptor of one range: nothing for other spaces; a 32-bit window must fit 32 bits. */
  function WindowBytes(r: PciRange): (b: Option<seq<byte>>)
    ensures b.Some? ==> |b.value| == WindowCost(r)
  {
    if r.space == 2 then
      if r.parent < U32_LIMIT && r.size < U32_LIMIT && r.parent + r.size < U32_LIMIT then Some(DwordMemory(r.parent, r.size)) else None
    else if r.space == 3 then
      if r.parent + r.size < U64_LIMIT then Some(QwordMemory(r.parent, r.size)) else None
    else Some([])
  }

  function WindowCost(r: PciRange): nat {
    if r.space == 2 then DWORD_MEMORY_BYTES else if r.space == 3 then QWORD_MEMORY_BYTES else 0
  }

  function WindowsCost(ranges: seq<PciRange>): (n: nat) {
    if ranges == [] then 0 else WindowsCost(ranges[..|ranges| - 1]) + WindowCost(ranges[|ranges| - 1])
  }

  function WindowsBytes(ranges: seq<PciRange>): (b: Option<seq<byte>>)
    ensures b.Some? ==> |b.value| == WindowsCost(ranges)
  {
    if ranges == [] then Some([]) else
      var front := WindowsBytes(ranges[..|ranges| - 1]);
      var last := WindowBytes(ranges[|ranges| - 1]);
      if front.None? || last.None? then None else Some(front.value + last.value)
  }

  /** The windows of both sizes among the ranges. */
  method CountWindows(ranges: seq<PciRange>) returns (mem32: nat, mem64: nat)
    ensures DWORD_MEMORY_BYTES * mem32 + QWORD_MEMORY_BYTES * mem64 == WindowsCost(ranges)
  {
    mem32, mem64 := 0, 0;
    for i := 0 to |ranges|
      invariant DWORD_MEMORY_BYTES * mem32 + QWORD_MEMORY_BYTES * mem64 == WindowsCost(ranges[..i])
    {
      assert ranges[..i + 1][..i] == ranges[..i];
      if ranges[i].space == 2 { mem32 := mem32 + 1; }
      else if ranges[i].space == 3 { mem64 := mem64 + 1; }
    }
    assert ranges[..|ranges|] == ranges;
  }

  function HostBridgeBytes(windows: nat): nat { 78 + windows }

  /** Bus descriptor, windows and end tag. */
  function HostCrs(windows: nat): nat { WORD_BUS_NUMBER_BYTES + windows + END_TAG_BYTES }

  /** The package length limit, and every window in its width. */
  predicate HostFits(n: Node) {
    && n.busRange.Some? && n.ranges.Some? && WindowsBytes(n.ranges.value).Some?
    && HostBridgeBytes(WindowsCost(n.ranges.value)) - 2 <= 0xFFF
  }

  function HostNames(segment: byte, bus: byte): (b: seq<byte>)
    ensures |b| == 41
  {
    NameDword(Ascii("_HID"), EisaId(Ascii("PNP0A08"))) + NameDword(Ascii("_CID"), EisaId(Ascii("PNP0A03")))
    + NameByte(Ascii("_SEG"), segment) + NameByte(Ascii("_UID"), segment) + NameByte(Ascii("_BBN"), bus)
  }

  function HostBridgeDevice(n: Node, segment: byte): (b: seq<byte>)
    requires HostFits(n)
    ensures |b| == HostBridgeBytes(WindowsCost(n.ranges.value))
  {
    var windows := WindowsBytes(n.ranges.value).value;
    DeviceHeader(NameSegIndexed(Ascii("PCI"), segment), HostBridgeBytes(|windows|))
    + HostNames(segment, n.busRange.value.0)
    + CrsHeader(HostCrs(|windows|)) + WordBusNumber(n.busRange.value.0, n.busRange.value.1) + windows + EndTag()
  }

  method WriteHostNames(buf: array<byte>, s: Slot, pos: nat, segment: byte, bus: byte, ghost w: Trace) returns (r: Result<nat, DtbError>)
    requires Writing(buf[..], w, pos) && w.slot == s
    modifies buf
    ensures r.Success? <==> pos + 41 <= s.len
    ensures r.Success? ==> r.value == pos + 41 && Writing(buf[..], Then(w, HostNames(segment, bus)), r.value)
  {
    hide Writing, Then, NameDword, NameByte, Ascii, EisaId;
    ghost var acc := NameDword(Ascii("_HID"), EisaId(Ascii("PNP0A08")));
    var p :- WriteNameDword(buf, s, pos, Ascii("_HID"), EisaId(Ascii("PNP0A08")), w);
    p :- WriteNameDword(buf, s, p, Ascii("_CID"), EisaId(Ascii("PNP0A03")), Then(w, acc));
    JoinThen(w, acc, NameDword(Ascii("_CID"), EisaId(Ascii("PNP0A03"))));
    acc := acc + NameDword(Ascii("_CID"), EisaId(Ascii("PNP0A03")));
    p :- WriteNameByte(buf, s, p, Ascii("_SEG"), segment, Then(w, acc));
    JoinThen(w, acc, NameByte(Ascii("_SEG"), segment));
    acc := acc + NameByte(Ascii("_SEG"), segment);
    p :- WriteNameByte(buf, s, p, Ascii("_UID"), segment, Then(w, acc));
    JoinThen(w, acc, NameByte(Ascii("_UID"), segment));
    acc := acc + NameByte(Ascii("_UID"), segment);
    p :- WriteNameByte(buf, s, p, Ascii("_BBN"), bus, Then(w, acc));
    JoinThen(w, acc, NameByte(Ascii("_BBN"), bus));
    return Success(p);
  }

  lemma {:induction false} WindowsPrefix(ranges: seq<PciRange>, i: nat)
    requires i <= |ranges|
    ensures WindowsBytes(ranges).Some? ==> WindowsBytes(ranges[..i]).Some?
    ensures WindowsCost(ranges[..i]) <= WindowsCost(ranges)
    ensures i < |ranges| ==> ranges[..i + 1][..i] == ranges[..i]
    decreases |ranges| - i
  {
    if i < |ranges| {
      WindowsPrefix(ranges, i + 1);
      assert ranges[..i + 1][..i] == ranges[..i];
      hide WindowBytes, WindowCost;
    } else {
      assert ranges[..i] == ranges;
    }
  }

  lemma {:induction false} WindowsStep(ranges: seq<PciRange>, i: nat)
    requires i < |ranges|
    ensures WindowsCost(ranges[..i + 1]) == WindowsCost(ranges[..i]) + WindowCost(ranges[i])
    ensures WindowsBytes(ranges[..i]).Some? && WindowBytes(ranges[i]).Some? ==>
      WindowsBytes(ranges[..i + 1]) == Some(WindowsBytes(ranges[..i]).value + WindowBytes(ranges[i]).value)
    ensures WindowBytes(ranges[i]).None? ==> WindowsBytes(ranges[..i + 1]).None?
  {
    assert ranges[..i + 1][..i] == ranges[..i];
    hide WindowBytes, WindowCost;
  }

  method WriteWindows(buf: array<byte>, s: Slot, pos: nat, ranges: seq<PciRange>, ghost w: Trace) returns (r: Result<nat, DtbError>)
    requires Writing(buf[..], w, pos) && w.slot == s
    modifies buf
    ensures r.Success? <==> WindowsBytes(ranges).Some? && pos + WindowsCost(ranges) <= s.len
    ensures r.Success? ==> r.value == pos + WindowsCost(ranges) && Writing(buf[..], Then(w, WindowsBytes(ranges).value), r.value)
  {
    var cursor := pos;
    ThenNothing(w);
    WritingBounds(buf[..], w, pos);
    NoWindows(ranges);
    hide Writing, Then, WindowsBytes, WindowsCost, DwordMemory, QwordMemory;
    for i := 0 to |ranges|
      invariant WindowsBytes(ranges[..i]).Some? && cursor == pos + WindowsCost(ranges[..i]) <= s.len
      invariant Writing(buf[..], Then(w, WindowsBytes(ranges[..i]).value), cursor)
    {
      var e := ranges[i];
      ghost var acc := WindowsBytes(ranges[..i]).value;
      WindowsStep(ranges, i);
      WindowsPrefix(ranges, i + 1);
      if e.space == 2 {
        if e.parent >= U32_LIMIT || e.size >= U32_LIMIT { return Failure(Dtb); }
        cursor :- WriteDwordMemory(buf, s, cursor, e.parent, e.size, Then(w, acc));
        JoinThen(w, acc, DwordMemory(e.parent, e.size));
      } else if e.space == 3 {
        cursor :- WriteQwordMemory(buf, s, cursor, e.parent, e.size, Then(w, acc));
        JoinThen(w, acc, QwordMemory(e.parent, e.size));
      } else {
        assert acc + [] == acc;
      }
    }
    assert ranges[..|ranges|] == ranges;
    return Success(cursor);
  }

  lemma {:induction false} NoWindows(ranges: seq<PciRange>)
    ensures WindowsBytes(ranges[..0]) == Some([]) && WindowsCost(ranges[..0]) == 0
  {}

  method WriteHostBridge(buf: array<byte>, s: Slot, pos: nat, n: Node, segment: byte, ghost w: Trace) returns (r: Result<nat, DtbError>)
    requires Writing(buf[..], w, pos) && w.slot == s
    modifies buf
    ensures r.Success? <==> HostFits(n) && pos + HostBridgeBytes(WindowsCost(n.ranges.value)) <= s.len
    ensures r.Success? ==> r.value == pos + HostBridgeBytes(WindowsCost(n.ranges.value))
    ensures r.Success? ==> Writing(buf[..], Then(w, HostBridgeDevice(n, segment)), r.value)
  {
    hide Writing, Then, DeviceHeader, HostNames, CrsHeader, WordBusNumber, EndTag, Ascii, NameSegIndexed, WindowsBytes, WindowsCost;
    if n.busRange.None? || n.ranges.None? { return Failure(Dtb); }
    var bus := n.busRange.value;
    var mem32, mem64 := CountWindows(n.ranges.value);
    var windows := DWORD_MEMORY_BYTES * mem32 + QWORD_MEMORY_BYTES * mem64;
    var total := HostBridgeBytes(windows);
    ghost var acc := [];
    var p :- WriteDeviceHeader(buf, s, pos, NameSegIndexed(Ascii("PCI"), segment), total, w);
    acc := DeviceHeader(NameSegIndexed(Ascii("PCI"), segment), total);
    p :- WriteHostNames(buf, s, p, segment, bus.0, Then(w, acc));
    JoinThen(w, acc, HostNames(segment, bus.0));
    acc := acc + HostNames(segment, bus.0);
    p :- WriteCrsHeader(buf, s, p, HostCrs(windows), Then(w, acc));
    JoinThen(w, acc, CrsHeader(HostCrs(windows)));
    acc := acc + CrsHeader(HostCrs(windows));
    p :- WriteBytes(buf, s, p, WordBusNumber(bus.0, bus.1), Then(w, acc));
    JoinThen(w, acc, WordBusNumber(bus.0, bus.1));
    acc := acc + WordBusNumber(bus.0, bus.1);
    p :- WriteWindows(buf, s, p, n.ranges.value, Then(w, acc));
    JoinThen(w, acc, WindowsBytes(n.ranges.value).value);
    acc := acc + WindowsBytes(n.ranges.value).value;
    p :- WriteBytes(buf, s, p, EndTag(), Then(w, acc));
    JoinThen(w, acc, EndTag());
    return Success(p);
  }

  // ---- UARTs ----

  function UartCrs(base: u64, size: u64, gsi: u32, sense: u32): (b: seq<byte>)
    requires base + size < U64_LIMIT
    ensures |b| == CRS_WRAPPER_BYTES + UART_CRS
  {
    CrsHeader(UART_CRS) + QwordMemory(base, size) + ExtendedInterrupt(gsi, sense) + EndTag()
  }

  method WriteUartCrs(buf: array<byte>, s: Slot, pos: nat, base: u64, size: u64, gsi: u32, sense: u32, ghost w: Trace)
    returns (r: Result<nat, DtbError>)
    requires Writing(buf[..], w, pos) && w.slot == s
    modifies buf
    ensures r.Success? <==> base + size < U64_LIMIT && pos + CRS_WRAPPER_BYTES + UART_CRS <= s.len
    ensures r.Success? ==> r.value == pos + CRS_WRAPPER_BYTES + UART_CRS && Writing(buf[..], Then(w, UartCrs(base, size, gsi, sense)), r.value)
  {
    hide Writing, Then, CrsHeader, QwordMemory, ExtendedInterrupt, EndTag;
    ghost var acc := CrsHeader(UART_CRS);
    var p :- WriteCrsHeader(buf, s, pos, UART_CRS, w);
    p :- WriteQwordMemory(buf, s, p, base, size, Then(w, acc));
    JoinThen(w, acc, QwordMemory(base, size));
    acc := acc + QwordMemory(base, size);
    p :- WriteBytes(buf, s, p, ExtendedInterrupt(gsi, sense), Then(w, acc));
    JoinThen(w, acc, ExtendedInterrupt(gsi, sense));
    acc := acc + ExtendedInterrupt(gsi, sense);
    p :- WriteBytes(buf, s, p, EndTag(), Then(w, acc));
    JoinThen(w, acc, EndTag());
    return Success(p);
  }

  function VirtioName(index: byte): NameSeg { [0x56, 0x4D, 0x30 + index / 10, 0x30 + index % 10] }

  predicate VirtioFits(n: Node) {
    FirstReg(n).Some? && n.interrupts.Some? && FirstReg(n).value.0 + FirstReg(n).value.1 < U64_LIMIT
  }

  function VirtioDevice(n: Node, index: byte): (b: seq<byte>)
    requires VirtioFits(n)
    ensures |b| == VIRTIO_BYTES
  {
    DeviceHeader(VirtioName(index), VIRTIO_BYTES) + NameString(Ascii("_HID"), Ascii("LNRO0005")) + NameByte(Ascii("_UID"), index)
    + UartCrs(FirstReg(n).value.0, FirstReg(n).value.1, n.interrupts.value.0, n.interrupts.value.1)
  }

  method WriteVirtio(buf: array<byte>, s: Slot, pos: nat, n: Node, index: byte, ghost w: Trace) returns (r: Result<nat, DtbError>)
    requires Writing(buf[..], w, pos) && w.slot == s
    modifies buf
    ensures r.Success? <==> VirtioFits(n) && pos + VIRTIO_BYTES <= s.len
    ensures r.Success? ==> r.value == pos + VIRTIO_BYTES && Writing(buf[..], Then(w, VirtioDevice(n, index)), r.value)
  {
    hide Writing, Then, DeviceHeader, NameString, NameByte, UartCrs, Ascii, VirtioName;
    if FirstReg(n).None? || n.interrupts.None? { return Failure(Dtb); }
    var reg, irq := FirstReg(n).value, n.interrupts.value;
    ghost var acc := DeviceHeader(VirtioName(index), VIRTIO_BYTES);
    var p :- WriteDeviceHeader(buf, s, pos, VirtioName(index), VIRTIO_BYTES, w);
    p :- WriteNameString(buf, s, p, Ascii("_HID"), Ascii("LNRO0005"), Then(w, acc));
    JoinThen(w, acc, NameString(Ascii("_HID"), Ascii("LNRO0005")));
    acc := acc + NameString(Ascii("_HID"), Ascii("LNRO0005"));
    p :- WriteNameByte(buf, s, p, Ascii("_UID"), index, Then(w, acc));
    JoinThen(w, acc, NameByte(Ascii("_UID"), index));
    acc := acc + NameByte(Ascii("_UID"), index);
    p :- WriteUartCrs(buf, s, p, reg.0, reg.1, irq.0, irq.1, Then(w, acc));
    JoinThen(w, acc, UartCrs(reg.0, reg.1, irq.0, irq.1));
    return Success(p);
  }

  // ---- the serial device and its properties ----

  const UUID: seq<byte> := [0x14, 0xD8, 0xFF, 0xDA, 0xBA, 0x6E, 0x8C, 0x4D, 0x8A, 0x91, 0xBC, 0x9B, 0xBF, 0x4A, 0xA3, 0x01]
  const PROPERTIES_BYTES: nat := 69
  const DSD_BYTES: nat := 103

  /** A two-element package: a property name and its value. */
  function DwordProperty(name: seq<byte>, v: u32): (b: seq<byte>)
    requires |name| < U8_LIMIT
    ensures |b| == |name| + 11
  {
    [PACKAGE_OP] + PkgLength(PKG_LENGTH_BYTES + 1 + (|name| + 7)) + [2] + AmlString(name) + [DWORD_PREFIX] + Le32(v)
  }

  method WriteDwordProperty(buf: array<byte>, s: Slot, pos: nat, name: seq<byte>, v: u32, ghost w: Trace) returns (r: Result<nat, DtbError>)
    requires Writing(buf[..], w, pos) && w.slot == s && |name| < U8_LIMIT
    modifies buf
    ensures r.Success? <==> pos + |name| + 11 <= s.len
    ensures r.Success? ==> r.value == pos + |name| + 11 && Writing(buf[..], Then(w, DwordProperty(name, v)), r.value)
  {
    hide Writing, Then, PkgLength, AmlString, Le32;
    var pkg := PKG_LENGTH_BYTES + 1 + (|name| + 7);
    ghost var acc := [PACKAGE_OP];
    var p :- WriteBytes(buf, s, pos, [PACKAGE_OP], w);
    p :- WritePkgLength(buf, s, p, pkg, Then(w, acc));
    JoinThen(w, acc, PkgLength(pkg));
    acc := acc + PkgLength(pkg);
    p :- WriteBytes(buf, s, p, [2], Then(w, acc));
    JoinThen(w, acc, [2]);
    acc := acc + [2];
    p :- WriteString(buf, s, p, name, Then(w, acc));
    JoinThen(w, acc, AmlString(name));
    acc := acc + AmlString(name);
    p :- WriteBytes(buf, s, p, [DWORD_PREFIX], Then(w, acc));
    JoinThen(w, acc, [DWORD_PREFIX]);
    acc := acc + [DWORD_PREFIX];
    p :- WriteBytes(buf, s, p, Le32(v), Then(w, acc));
    JoinThen(w, acc, Le32(v));
    return Success(p);
  }

  function Properties(clock: u32, shift: u32, width: u32): (b: seq<byte>)
    ensures |b| == PROPERTIES_BYTES
  {
    DwordProperty(Ascii("clock-frequency"), clock) + DwordProperty(Ascii("reg-shift"), shift) + DwordProperty(Ascii("reg-io-width"), width)
  }

  function PropertiesPackage(clock: u32, shift: u32, width: u32): (b: seq<byte>)
    ensures |b| == PROPERTIES_BYTES + 4
  {
    [PACKAGE_OP] + PkgLength(PKG_LENGTH_BYTES + 1 + PROPERTIES_BYTES) + [3] + Properties(clock, shift, width)
  }

  /** Device-specific data: the property UUID and a package of the three properties. */
  function Dsd(clock: u32, shift: u32, width: u32): (b: seq<byte>)
    ensures |b| == DSD_BYTES
  {
    [NAME_OP] + Ascii("_DSD") + [PACKAGE_OP] + PkgLength(PKG_LENGTH_BYTES + 1 + 21 + (PROPERTIES_BYTES + 4)) + [2]
    + ByteBuffer(UUID) + PropertiesPackage(clock, shift, width)
  }

  method WriteProperties(buf: array<byte>, s: Slot, pos: nat, clock: u32, shift: u32, width: u32, ghost w: Trace)
    returns (r: Result<nat, DtbError>)
    requires Writing(buf[..], w, pos) && w.slot == s
    modifies buf
    ensures r.Success? <==> pos + PROPERTIES_BYTES + 4 <= s.len
    ensures r.Success? ==> r.value == pos + PROPERTIES_BYTES + 4 && Writing(buf[..], Then(w, PropertiesPackage(clock, shift, width)), r.value)
  {
    hide Writing, Then, PkgLength, DwordProperty, Ascii;
    var pkg := PKG_LENGTH_BYTES + 1 + PROPERTIES_BYTES;
    ghost var acc := [PACKAGE_OP];
    var p :- WriteBytes(buf, s, pos, [PACKAGE_OP], w);
    p :- WritePkgLength(buf, s, p, pkg, Then(w, acc));
    JoinThen(w, acc, PkgLength(pkg));
    acc := acc + PkgLength(pkg);
    p :- WriteBytes(buf, s, p, [3], Then(w, acc));
    JoinThen(w, acc, [3]);
    acc := acc + [3];
    ghost var a, b, c := DwordProperty(Ascii("clock-frequency"), clock), DwordProperty(Ascii("reg-shift"), shift), DwordProperty(Ascii("reg-io-width"), width);
    p :- WriteDwordProperty(buf, s, p, Ascii("clock-frequency"), clock, Then(w, acc));
    JoinThen(w, acc, a);
    p :- WriteDwordProperty(buf, s, p, Ascii("reg-shift"), shift, Then(w, acc + a));
    JoinThen(w, acc + a, b);
    p :- WriteDwordProperty(buf, s, p, Ascii("reg-io-width"), width, Then(w, acc + a + b));
    JoinThen(w, acc + a + b, c);
    assert acc + a + b + c == acc + (a + b + c);
    return Success(p);
  }

  method WriteDsd(buf: array<byte>, s: Slot, pos: nat, clock: u32, shift: u32, width: u32, ghost w: Trace) returns (r: Result<nat, DtbError>)
    requires Writing(buf[..], w, pos) && w.slot == s
    modifies buf
    ensures r.Success? <==> pos + DSD_BYTES <= s.len
    ensures r.Success? ==> r.value == pos + DSD_BYTES && Writing(buf[..], Then(w, Dsd(clock, shift, width)), r.value)
  {
    hide Writing, Then, PkgLength, ByteBuffer, PropertiesPackage, Ascii;
    var pkg := PKG_LENGTH_BYTES + 1 + 21 + (PROPERTIES_BYTES + 4);
    ghost var acc := [NAME_OP];
    var p :- WriteBytes(buf, s, pos, [NAME_OP], w);
    p :- WriteBytes(buf, s, p, Ascii("_DSD"), Then(w, acc));
    JoinThen(w, acc, Ascii("_DSD"));
    acc := acc + Ascii("_DSD");
    p :- WriteBytes(buf, s, p, [PACKAGE_OP], Then(w, acc));
    JoinThen(w, acc, [PACKAGE_OP]);
    acc := acc + [PACKAGE_OP];
    p :- WritePkgLength(buf, s, p, pkg, Then(w, acc));
    JoinThen(w, acc, PkgLength(pkg));
    acc := acc + PkgLength(pkg);
    p :- WriteBytes(buf, s, p, [2], Then(w, acc));
    JoinThen(w, acc, [2]);
    acc := acc + [2];
    p :- WriteByteBuffer(buf, s, p, UUID, Then(w, acc));
    JoinThen(w, acc, ByteBuffer(UUID));
    acc := acc + ByteBuffer(UUID);
    p :- WriteProperties(buf, s, p, clock, shift, width, Then(w, acc));
    JoinThen(w, acc, PropertiesPackage(clock, shift, width));
    return Success(p);
  }

  predicate SerialFits(n: Node) {
    && DecodeSerial(n).Success? && n.regShift.Some? && n.clockFrequency.Some?
    && FirstReg(n).value.0 + FirstReg(n).value.1 < U64_LIMIT
  }

  function SerialDevice(n: Node): (b: seq<byte>)
    requires SerialFits(n)
    ensures |b| == SERIAL_BYTES
  {
    DeviceHeader(Ascii("SER0"), SERIAL_BYTES) + NameString(Ascii("_HID"), Ascii("RSCV0003")) + NameByte(Ascii("_UID"), 0)
    + UartCrs(FirstReg(n).value.0, FirstReg(n).value.1, n.interrupts.value.0, n.interrupts.value.1)
    + Dsd(n.clockFrequency.value, n.regShift.value, n.regIoWidth.value)
  }

  method WriteSerial(buf: array<byte>, s: Slot, pos: nat, n: Node, ghost w: Trace) returns (r: Result<nat, DtbError>)
    requires Writing(buf[..], w, pos) && w.slot == s
    modifies buf
    ensures r.Success? <==> SerialFits(n) && pos + SERIAL_BYTES <= s.len
    ensures r.Success? ==> r.value == pos + SERIAL_BYTES && Writing(buf[..], Then(w, SerialDevice(n)), r.value)
  {
    hide Writing, Then, DeviceHeader, NameString, NameByte, UartCrs, Dsd, Ascii;
    var decoded := DecodeSerial(n);
    if decoded.Failure? || n.regShift.None? || n.regIoWidth.None? || n.clockFrequency.None? { return Failure(Dtb); }
    var base, gsi, size := decoded.value.0, decoded.value.2, FirstReg(n).value.1;
    ghost var acc := DeviceHeader(Ascii("SER0"), SERIAL_BYTES);
    var p :- WriteDeviceHeader(buf, s, pos, Ascii("SER0"), SERIAL_BYTES, w);
    p :- WriteNameString(buf, s, p, Ascii("_HID"), Ascii("RSCV0003"), Then(w, acc));
    JoinThen(w, acc, NameString(Ascii("_HID"), Ascii("RSCV0003")));
    acc := acc + NameString(Ascii("_HID"), Ascii("RSCV0003"));
    p :- WriteNameByte(buf, s, p, Ascii("_UID"), 0, Then(w, acc));
    JoinThen(w, acc, NameByte(Ascii("_UID"), 0));
    acc := acc + NameByte(Ascii("_UID"), 0);
    p :- WriteUartCrs(buf, s, p, base, size, gsi, n.interrupts.value.1, Then(w, acc));
    JoinThen(w, acc, UartCrs(base, size, gsi, n.interrupts.value.1));
    acc := acc + UartCrs(base, size, gsi, n.interrupts.value.1);
    p :- WriteDsd(buf, s, p, n.clockFrequency.value, n.regShift.value, n.regIoWidth.value, Then(w, acc));
    JoinThen(w, acc, Dsd(n.clockFrequency.value, n.regShift.value, n.regIoWidth.value));
    return Success(p);
  }
}
