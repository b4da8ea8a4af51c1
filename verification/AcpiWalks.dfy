/** Walks over the root's children: one block of bytes per matching node, counted first and emitted later. */
module AcpiWalks {
  import opened Outcomes
  import opened Words
  import opened Buffers
  import opened AcpiCore
  import opened Aml
  import opened DeviceTree
  import opened AcpiDevices
  import opened AcpiEntries

  /** Three walks write DSDT devices, three write table entries. */
  datatype Walk = Motherboard | HostBridge | Virtio | IoApics | MemoryRegions | EcamRegions

  /** Walks that number their blocks with eight bits. */
  predicate Indexed(f: Walk) { !f.MemoryRegions? && !f.EcamRegions? }

  predicate IsDevices(f: Walk) { f.Motherboard? || f.HostBridge? || f.Virtio? }

  /** Whether the walk takes the node; a malformed `compatible` stops all walks but two. */
  function Wants(f: Walk, n: Node): Option<bool> {
    match f
    case Motherboard => Has(n, PciHost)
    case HostBridge => Has(n, PciHost)
    case EcamRegions => Has(n, PciHost)
    case Virtio => Has(n, VirtioMmio)
    case IoApics => Some(Has(n, IoApic) == Some(true))
    case MemoryRegions => Some(n.base == MemoryName)
  }

  /** The bytes of a node, when emission can encode it. */
  function BlockOf(f: Walk, n: Node, index: byte): (b: Option<seq<byte>>) {
    match f
    case Motherboard =>
      if FirstReg(n).Some? && FirstReg(n).value.0 + FirstReg(n).value.1 < U64_LIMIT
      then Some(MotherboardDevice(index, FirstReg(n).value.0, FirstReg(n).value.1)) else None
    case HostBridge => if HostFits(n) then Some(HostBridgeDevice(n, index)) else None
    case Virtio => if VirtioFits(n) then Some(VirtioDevice(n, index)) else None
    case IoApics => if IntcFits(n) then Some(IoApicEntry(n, index)) else None
    case MemoryRegions => if MemoryFits(n) then Some(MemoryBlock(n)) else None
    case EcamRegions => if EcamFits(n) then Some(EcamEntry(n)) else None
  }

  /** What the counting pass charges for a node. */
  function CostOf(f: Walk, n: Node): (c: Option<nat>) {
    match f
    case Motherboard => Some(MOTHERBOARD_BYTES)
    case HostBridge => if n.ranges.None? then None else Some(HostBridgeBytes(WindowsCost(n.ranges.value)))
    case Virtio => Some(VIRTIO_BYTES)
    case IoApics => if IntcFits(n) then Some(IOAPIC_BYTES) else None
    case MemoryRegions =>
      if n.status.None? || n.numaNode.None? || n.reg.None? then None else Some(MEMORY_BYTES * |n.reg.value|)
    case EcamRegions => if EcamFits(n) then Some(ECAM_BYTES) else None
  }

  lemma {:induction false} CostIsExact(f: Walk, n: Node, index: byte)
    ensures BlockOf(f, n, index).Some? ==> CostOf(f, n) == Some(|BlockOf(f, n, index).value|)
  {
    hide MotherboardDevice, HostBridgeDevice, VirtioDevice, IoApicEntry, MemoryBlock, EcamEntry, WindowsCost, WindowsBytes;
  }

  /** The number of the next block. */
  function NextIndex(f: Walk, l: seq<seq<byte>>): (i: byte)
    requires Indexed(f) ==> |l| < U8_LIMIT
  {
    if Indexed(f) then |l| else 0
  }

  /** The blocks of one walk in tree order; an 8-bit index allows 255 of them. */
  function Blocks(f: Walk, children: seq<Node>): (l: Option<seq<seq<byte>>>)
    ensures l.Some? && Indexed(f) ==> |l.value| < U8_LIMIT
  {
    if children == [] then Some([]) else
      var (front, n) := (Blocks(f, children[..|children| - 1]), children[|children| - 1]);
      if front.None? || Wants(f, n).None? then None
      else if !Wants(f, n).value then front
      else if BlockOf(f, n, NextIndex(f, front.value)).None? || (Indexed(f) && |front.value| + 1 == U8_LIMIT) then None
      else Some(front.value + [BlockOf(f, n, NextIndex(f, front.value)).value])
  }

  function Flat(l: seq<seq<byte>>): (b: seq<byte>) {
    if l == [] then [] else Flat(l[..|l| - 1]) + l[|l| - 1]
  }

  function CountBytes(f: Walk, children: seq<Node>): (c: Option<nat>) {
    if children == [] then Some(0) else
      var (front, n) := (CountBytes(f, children[..|children| - 1]), children[|children| - 1]);
      if front.None? || Wants(f, n).None? then None
      else if !Wants(f, n).value then front
      else if CostOf(f, n).None? then None
      else Some(front.value + CostOf(f, n).value)
  }

  /** The counting pass charges exactly what emission writes. */
  lemma {:induction false} CountMatchesEmission(f: Walk, children: seq<Node>)
    requires Blocks(f, children).Some?
    ensures CountBytes(f, children) == Some(|Flat(Blocks(f, children).value)|)
  {
    hide BlockOf, CostOf, Wants;
    if children != [] {
      var (front, n) := (children[..|children| - 1], children[|children| - 1]);
      CountMatchesEmission(f, front);
      var l := Blocks(f, front).value;
      if Wants(f, n).value {
        CostIsExact(f, n, NextIndex(f, l));
        var d := BlockOf(f, n, NextIndex(f, l)).value;
        assert (l + [d])[..|l|] == l;
      }
    }
  }

  /** The counting walk of one family. */
  method CountWalk(f: Walk, children: seq<Node>) returns (r: Result<nat, DtbError>)
    ensures r.Success? <==> CountBytes(f, children).Some?
    ensures r.Success? ==> r.value == CountBytes(f, children).value
  {
    hide Wants, CostOf;
    var total := 0;
    for i := 0 to |children|
      invariant CountBytes(f, children[..i]) == Some(total)
    {
      var n := children[i];
      CountPrefix(f, children, i + 1);
      assert children[..i + 1][..i] == children[..i];
      var wants := Wants(f, n);
      if wants.None? { return Failure(Dtb); }
      if wants.value {
        var cost := CostOf(f, n);
        if cost.None? { return Failure(Dtb); }
        total := total + cost.value;
      }
    }
    assert children[..|children|] == children;
    return Success(total);
  }

  lemma {:induction false} CountPrefix(f: Walk, children: seq<Node>, i: nat)
    requires i <= |children|
    ensures CountBytes(f, children).Some? ==> CountBytes(f, children[..i]).Some?
    decreases |children| - i
  {
    hide Wants, CostOf;
    if i < |children| {
      CountPrefix(f, children, i + 1);
      assert children[..i + 1][..i] == children[..i];
    } else {
      assert children[..i] == children;
    }
  }

  lemma {:induction false} ListPrefix(f: Walk, children: seq<Node>, i: nat)
    requires i <= |children|
    ensures Blocks(f, children).Some? ==>
      Blocks(f, children[..i]).Some? && |Flat(Blocks(f, children[..i]).value)| <= |Flat(Blocks(f, children).value)|
    decreases |children| - i
  {
    hide Wants, BlockOf, Blocks;
    if i < |children| {
      ListPrefix(f, children, i + 1);
      ListStep(f, children, i);
    } else {
      assert children[..i] == children;
    }
  }

  /** The next device, as the emission loop sees it. */
  lemma {:induction false} ListStep(f: Walk, children: seq<Node>, i: nat)
    requires i < |children|
    ensures
      var (front, all, n) := (Blocks(f, children[..i]), Blocks(f, children[..i + 1]), children[i]);
      if front.None? || Wants(f, n).None? then all.None?
      else if !Wants(f, n).value then all == front
      else if BlockOf(f, n, NextIndex(f, front.value)).None? || (Indexed(f) && |front.value| + 1 == U8_LIMIT) then all.None?
      else
        var d := BlockOf(f, n, NextIndex(f, front.value)).value;
        all.Some? && |all.value| == |front.value| + 1 && Flat(all.value) == Flat(front.value) + d
  {
    hide Wants, BlockOf;
    assert children[..i + 1][..i] == children[..i];
    var (front, n) := (Blocks(f, children[..i]), children[i]);
    if front.Some? && Wants(f, n) == Some(true) && BlockOf(f, n, NextIndex(f, front.value)).Some? {
      var d := BlockOf(f, n, NextIndex(f, front.value)).value;
      assert (front.value + [d])[..|front.value|] == front.value;
    }
  }

  method WriteBlock(f: Walk, buf: array<byte>, s: Slot, pos: nat, n: Node, index: byte, ghost w: Trace) returns (r: Result<nat, DtbError>)
    requires Writing(buf[..], w, pos) && w.slot == s
    modifies buf
    ensures r.Success? <==> BlockOf(f, n, index).Some? && pos + |BlockOf(f, n, index).value| <= s.len
    ensures r.Success? ==> r.value == pos + |BlockOf(f, n, index).value| && Writing(buf[..], Then(w, BlockOf(f, n, index).value), r.value)
  {
    hide Writing, Then, MotherboardDevice, HostBridgeDevice, VirtioDevice, IoApicEntry, MemoryBlock, EcamEntry, WindowsCost, WindowsBytes;
    match f
    case Motherboard =>
      if FirstReg(n).None? { return Failure(Dtb); }
      r := WriteMotherboard(buf, s, pos, index, FirstReg(n).value.0, FirstReg(n).value.1, w);
    case HostBridge =>
      r := WriteHostBridge(buf, s, pos, n, index, w);
    case Virtio =>
      r := WriteVirtio(buf, s, pos, n, index, w);
    case IoApics =>
      if !IntcFits(n) { return Failure(Dtb); }
      r := WriteBytes(buf, s, pos, IoApicEntry(n, index), w);
    case MemoryRegions =>
      if !MemoryFits(n) { return Failure(Dtb); }
      r := WriteMemory(buf, s, pos, n, w);
    case EcamRegions =>
      if !EcamFits(n) { return Failure(Dtb); }
      r := WriteBytes(buf, s, pos, EcamEntry(n), w);
  }

  /** One affinity entry for every region of a memory node. */
  method WriteMemory(buf: array<byte>, s: Slot, pos: nat, n: Node, ghost w: Trace) returns (r: Result<nat, DtbError>)
    requires Writing(buf[..], w, pos) && w.slot == s && MemoryFits(n)
    modifies buf
    ensures r.Success? <==> pos + |MemoryBlock(n)| <= s.len
    ensures r.Success? ==> r.value == pos + |MemoryBlock(n)| && Writing(buf[..], Then(w, MemoryBlock(n)), r.value)
  {
    hide Writing, Then, MemoryEntry;
    var pd, flags, regions := n.numaNode.value.value, MemoryFlags(n.status.value, n.hotpluggable), n.reg.value;
    ThenNothing(w);
    WritingBounds(buf[..], w, pos);
    var cursor := pos;
    for i := 0 to |regions|
      invariant cursor == pos + MEMORY_BYTES * i <= s.len && Writing(buf[..], Then(w, MemoryEntries(pd, flags, regions[..i])), cursor)
    {
      ghost var acc := MemoryEntries(pd, flags, regions[..i]);
      var e := MemoryEntry(pd, regions[i].0, regions[i].1, flags);
      cursor :- WriteBytes(buf, s, cursor, e, Then(w, acc));
      JoinThen(w, acc, e);
      assert regions[..i + 1][..i] == regions[..i];
    }
    assert regions[..|regions|] == regions;
    return Success(cursor);
  }

  /** The emission walk of one family. */
  method EmitWalk(f: Walk, buf: array<byte>, s: Slot, pos: nat, children: seq<Node>, ghost w: Trace) returns (r: Result<nat, DtbError>)
    requires Writing(buf[..], w, pos) && w.slot == s
    modifies buf
    ensures r.Success? <==> Blocks(f, children).Some? && pos + |Flat(Blocks(f, children).value)| <= s.len
    ensures r.Success? ==> r.value == pos + |Flat(Blocks(f, children).value)|
    ensures r.Success? ==> Writing(buf[..], Then(w, Flat(Blocks(f, children).value)), r.value)
  {
    ThenNothing(w);
    WritingBounds(buf[..], w, pos);
    EmptyList(f, children);
    hide Writing, Then, BlockOf, Wants, Blocks, Flat;
    var cursor := pos;
    var index: byte := 0;
    for i := 0 to |children|
      invariant Blocks(f, children[..i]).Some? && index == NextIndex(f, Blocks(f, children[..i]).value)
      invariant cursor == pos + |Flat(Blocks(f, children[..i]).value)|
      invariant Writing(buf[..], Then(w, Flat(Blocks(f, children[..i]).value)), cursor)
    {
      ghost var acc := Flat(Blocks(f, children[..i]).value);
      ListStep(f, children, i);
      ListPrefix(f, children, i + 1);
      var wants := Wants(f, children[i]);
      if wants.None? { return Failure(Dtb); }
      if wants.value {
        cursor :- WriteBlock(f, buf, s, cursor, children[i], index, Then(w, acc));
        JoinThen(w, acc, BlockOf(f, children[i], index).value);
        if Indexed(f) {
          if index + 1 == U8_LIMIT { return Failure(Dtb); }
          index := index + 1;
        }
      }
    }
    assert children[..|children|] == children;
    WritingBounds(buf[..], Then(w, Flat(Blocks(f, children).value)), cursor);
    return Success(cursor);
  }

  lemma {:induction false} EmptyList(f: Walk, children: seq<Node>)
    ensures Blocks(f, children[..0]) == Some([]) && Flat([]) == []
  {}

  // ---- the DSDT ----

  const S5_BYTES: nat := 13

  /** The soft-off package; its first element is bits 4:2 of the sleep value. */
  function S5(sleep: byte): (b: seq<byte>)
    ensures |b| == S5_BYTES
  {
    [NAME_OP, 0x5C, 0x5F, 0x53, 0x35, 0x5F, PACKAGE_OP, 6, 3, BYTE_PREFIX, sleep / 4 % 8, 0, 0]
  }

  /** Every device block of the tree in emission order. */
  function Devices(children: seq<Node>): (l: Option<seq<seq<byte>>>) {
    var (mbr, pci, serial, vm) := (Blocks(Motherboard, children), Blocks(HostBridge, children), FindSerial(children), Blocks(Virtio, children));
    if mbr.None? || pci.None? || serial.Failure? || vm.None? then None
    else if serial.value.None? then Some(mbr.value + pci.value + vm.value)
    else if !SerialFits(serial.value.value) then None
    else Some(mbr.value + pci.value + [SerialDevice(serial.value.value)] + vm.value)
  }

  function DsdtBody(sleep: byte, children: seq<Node>): (b: seq<byte>)
    requires Devices(children).Some?
  {
    S5(sleep) + Flat(Devices(children).value)
  }

  lemma {:induction false} FlatJoin(a: seq<seq<byte>>, b: seq<seq<byte>>)
    ensures Flat(a + b) == Flat(a) + Flat(b)
  {
    if b == [] {
      assert a + b == a;
    } else {
      FlatJoin(a, b[..|b| - 1]);
      assert (a + b)[..|a + b| - 1] == a + b[..|b| - 1];
    }
  }

  lemma {:induction false} FlatOne(d: seq<byte>)
    ensures Flat([d]) == d
  {
    assert [d][..0] == [];
  }

  /** The bytes counted for all the devices. */
  function CountDevices(children: seq<Node>): (c: Option<nat>) {
    var (mbr, pci, serial, vm) := (CountBytes(Motherboard, children), CountBytes(HostBridge, children), FindSerial(children), CountBytes(Virtio, children));
    if mbr.None? || pci.None? || serial.Failure? || vm.None? then None
    else Some(mbr.value + pci.value + (if serial.value.Some? then SERIAL_BYTES else 0) + vm.value)
  }

  /** The DSDT counted is the DSDT emitted. */
  lemma {:induction false} DsdtCountIsExact(sleep: byte, children: seq<Node>)
    requires Devices(children).Some?
    ensures CountDevices(children) == Some(|DsdtBody(sleep, children)| - S5_BYTES)
  {
    hide Blocks, CountBytes, FindSerial, SerialDevice, SerialFits, S5, Flat;
    CountMatchesEmission(Motherboard, children);
    CountMatchesEmission(HostBridge, children);
    CountMatchesEmission(Virtio, children);
    FlatDevices(children);
  }

  /** The device bytes, family by family. */
  lemma {:induction false} FlatDevices(children: seq<Node>)
    requires Devices(children).Some?
    ensures
      var (mbr, pci, vm) := (Blocks(Motherboard, children).value, Blocks(HostBridge, children).value, Blocks(Virtio, children).value);
      var serial := FindSerial(children).value;
      Flat(Devices(children).value) == Flat(mbr) + Flat(pci) + (if serial.Some? then SerialDevice(serial.value) else []) + Flat(vm)
  {
    hide Blocks, FindSerial, SerialDevice, SerialFits, Flat;
    var (mbr, pci, vm) := (Blocks(Motherboard, children).value, Blocks(HostBridge, children).value, Blocks(Virtio, children).value);
    var serial := FindSerial(children).value;
    FlatJoin(mbr, pci);
    if serial.Some? {
      FlatOne(SerialDevice(serial.value));
      FlatJoin(mbr + pci, [SerialDevice(serial.value)]);
      FlatJoin(mbr + pci + [SerialDevice(serial.value)], vm);
    } else {
      FlatJoin(mbr + pci, vm);
      assert Flat(mbr + pci) + [] == Flat(mbr + pci);
    }
  }

  /** The serial block, when there is a serial node. */
  method EmitSerial(buf: array<byte>, s: Slot, pos: nat, children: seq<Node>, ghost w: Trace) returns (r: Result<nat, DtbError>)
    requires Writing(buf[..], w, pos) && w.slot == s
    modifies buf
    ensures r.Success? <==> SerialBlock(children).Some? && pos + |SerialBlock(children).value| <= s.len
    ensures r.Success? ==> r.value == pos + |SerialBlock(children).value| && Writing(buf[..], Then(w, SerialBlock(children).value), r.value)
  {
    ThenNothing(w);
    WritingBounds(buf[..], w, pos);
    hide Writing, Then, SerialDevice, SerialFits, FindSerial;
    var found := FindSerial(children);
    if found.Failure? { return Failure(Dtb); }
    if found.value.None? { return Success(pos); }
    r := WriteSerial(buf, s, pos, found.value.value, w);
  }

  function SerialBlock(children: seq<Node>): (b: Option<seq<byte>>) {
    var serial := FindSerial(children);
    if serial.Failure? then None
    else if serial.value.None? then Some([])
    else if SerialFits(serial.value.value) then Some(SerialDevice(serial.value.value)) else None
  }

  const DSDT: seq<byte> := [0x44, 0x53, 0x44, 0x54]
  const DSDT_REVISION: byte := 2

  /** The four walks in order. */
  method EmitDevices(buf: array<byte>, s: Slot, pos: nat, children: seq<Node>, ghost w: Trace) returns (r: Result<nat, DtbError>)
    requires Writing(buf[..], w, pos) && w.slot == s
    modifies buf
    ensures r.Success? <==> Devices(children).Some? && pos + |Flat(Devices(children).value)| <= s.len
    ensures r.Success? ==> r.value == pos + |Flat(Devices(children).value)| && Writing(buf[..], Then(w, Flat(Devices(children).value)), r.value)
  {
    DeviceParts(children);
    hide Writing, Then, Blocks, Flat, SerialBlock, Devices;
    var p :- EmitWalk(Motherboard, buf, s, pos, children, w);
    ghost var acc := Flat(Blocks(Motherboard, children).value);
    p :- EmitWalk(HostBridge, buf, s, p, children, Then(w, acc));
    ghost var block := Flat(Blocks(HostBridge, children).value);
    JoinThen(w, acc, block);
    acc := acc + block;
    p :- EmitSerial(buf, s, p, children, Then(w, acc));
    block := SerialBlock(children).value;
    JoinThen(w, acc, block);
    acc := acc + block;
    p :- EmitWalk(Virtio, buf, s, p, children, Then(w, acc));
    JoinThen(w, acc, Flat(Blocks(Virtio, children).value));
    return Success(p);
  }

  lemma {:induction false} DeviceParts(children: seq<Node>)
    ensures Devices(children).Some? <==>
      Blocks(Motherboard, children).Some? && Blocks(HostBridge, children).Some? && SerialBlock(children).Some? && Blocks(Virtio, children).Some?
    ensures Devices(children).Some? ==>
      var (mbr, pci, vm) := (Blocks(Motherboard, children).value, Blocks(HostBridge, children).value, Blocks(Virtio, children).value);
      Flat(Devices(children).value) == Flat(mbr) + Flat(pci) + SerialBlock(children).value + Flat(vm)
  {
    hide Blocks, FindSerial, SerialDevice, SerialFits, Flat;
    if Devices(children).Some? { FlatDevices(children); }
  }

  /** The DSDT of a tree, when every device can be encoded. */
  function Dsdt(oem: OemIdentity, sleep: byte, children: seq<Node>): (t: Option<seq<byte>>) {
    if Devices(children).None? then None else MakeTable(DSDT, DSDT_REVISION, oem, DsdtBody(sleep, children))
  }

  lemma {:induction false} BlocksAreSmall(f: Walk, children: seq<Node>)
    requires Blocks(f, children).Some? && IsDevices(f)
    ensures |Flat(Blocks(f, children).value)| <= 0x1001 * |Blocks(f, children).value|
  {
    hide Wants, BlockOf;
    if children != [] {
      var (front, n) := (children[..|children| - 1], children[|children| - 1]);
      BlocksAreSmall(f, front);
      var l := Blocks(f, front).value;
      if Wants(f, n).value {
        BlockIsSmall(f, n, NextIndex(f, l));
        var d := BlockOf(f, n, NextIndex(f, l)).value;
        assert (l + [d])[..|l|] == l;
      }
    }
  }

  lemma {:induction false} BlockIsSmall(f: Walk, n: Node, index: byte)
    requires BlockOf(f, n, index).Some? && IsDevices(f)
    ensures |BlockOf(f, n, index).value| <= 0x1001
  {
    hide MotherboardDevice, HostBridgeDevice, VirtioDevice, IoApicEntry, MemoryBlock, EcamEntry, WindowsCost, WindowsBytes;
  }

  /** With at most 255 devices a family, the DSDT always fits its length field. */
  lemma {:induction false} DsdtIsSmall(sleep: byte, children: seq<Node>)
    requires Devices(children).Some?
    ensures SDT_HEADER_SIZE + |DsdtBody(sleep, children)| < U32_LIMIT
  {
    hide Blocks, FindSerial, SerialDevice, SerialFits, Flat, S5;
    FlatDevices(children);
    BlocksAreSmall(Motherboard, children);
    BlocksAreSmall(HostBridge, children);
    BlocksAreSmall(Virtio, children);
  }

  /** Writes the DSDT; succeeds exactly when every device can be encoded and together they fill the slot. */
  method WriteDsdt(buf: array<byte>, s: Slot, oem: OemIdentity, sleep: byte, children: seq<Node>) returns (r: Result<(), DtbError>)
    requires s.offset + s.len <= buf.Length
    modifies buf
    ensures r.Success? <==> Dsdt(oem, sleep, children).Some? && |Dsdt(oem, sleep, children).value| == s.len
    ensures r.Success? ==> Stored(old(buf[..]), buf[..], s, Dsdt(oem, sleep, children).value)
  {
    hide Writing, Then, SdtHeader, S5, Flat, Devices, Put, Balanced, Table, NewTrace, Cut, Stored;
    ghost var before := buf[..];
    ghost var w := NewTrace(before, s, 0);
    StartWriting(before, s, 0);
    TraceSlot(before, s);
    if Devices(children).Some? { DsdtIsSmall(sleep, children); }
    var length: u32 := if s.len < U32_LIMIT then s.len else U32_LIMIT - 1;
    ghost var header := SdtHeader(DSDT, length, DSDT_REVISION, oem);
    var p :- WriteBytes(buf, s, 0, SdtHeader(DSDT, length, DSDT_REVISION, oem), w);
    p :- WriteBytes(buf, s, p, S5(sleep), Then(w, header));
    JoinThen(w, header, S5(sleep));
    p :- EmitDevices(buf, s, p, children, Then(w, header + S5(sleep)));
    JoinThen(w, header + S5(sleep), Flat(Devices(children).value));
    if p != s.len { return Failure(Dtb); }
    assert header + S5(sleep) + Flat(Devices(children).value) == header + DsdtBody(sleep, children);
    r := SealTable(buf, s, before, DSDT, DSDT_REVISION, oem, DsdtBody(sleep, children), length);
  }

  // ---- which nodes become which blocks ----

  /** The nodes a walk takes, in tree order. */
  function Chosen(f: Walk, children: seq<Node>): (c: seq<Node>) {
    if children == [] then [] else
      var n := children[|children| - 1];
      Chosen(f, children[..|children| - 1]) + if Wants(f, n) == Some(true) then [n] else []
  }

  predicate Encodable(f: Walk, n: Node) { BlockOf(f, n, 0).Some? }

  lemma {:induction false} IndexDoesNotMatter(f: Walk, n: Node, i: byte)
    ensures BlockOf(f, n, i).Some? <==> Encodable(f, n)
  {
    hide MotherboardDevice, HostBridgeDevice, VirtioDevice, IoApicEntry, MemoryBlock, EcamEntry, WindowsCost, WindowsBytes;
  }

  /** Emission of a walk succeeds exactly when no `compatible` is malformed, every chosen node can be
      encoded and an 8-bit index suffices; then block `k` is the block of the `k`-th chosen node. */
  lemma {:induction false} BlocksExist(f: Walk, children: seq<Node>)
    ensures Blocks(f, children).Some? <==>
      && (forall n :: n in children ==> Wants(f, n).Some?) && (forall n :: n in Chosen(f, children) ==> Encodable(f, n))
      && (Indexed(f) ==> |Chosen(f, children)| < U8_LIMIT)
    ensures Blocks(f, children).Some? ==>
      && |Blocks(f, children).value| == |Chosen(f, children)|
      && forall k :: 0 <= k < |Chosen(f, children)| ==>
           Some(Blocks(f, children).value[k]) == BlockOf(f, Chosen(f, children)[k], if Indexed(f) && k < U8_LIMIT then k else 0)
  {
    hide Wants, BlockOf, Encodable, Indexed;
    if children != [] {
      var (front, n) := (children[..|children| - 1], children[|children| - 1]);
      BlocksExist(f, front);
      assert children == front + [n];
      assert forall m :: m in children <==> m in front || m == n;
      if Wants(f, n) == Some(true) {
        var c := Chosen(f, front);
        assert forall m :: m in c + [n] <==> m in c || m == n;
        if Blocks(f, front).Some? { IndexDoesNotMatter(f, n, NextIndex(f, Blocks(f, front).value)); }
      } else {
        assert Chosen(f, children) == Chosen(f, front);
      }
    }
  }

  // ---- what can be encoded ----

  /** A window fits the descriptor of its width. */
  predicate WindowFits(r: PciRange) {
    (r.space == 2 ==> r.parent + r.size < U32_LIMIT) && (r.space == 3 ==> r.parent + r.size < U64_LIMIT)
  }

  lemma {:induction false} WindowsFit(ranges: seq<PciRange>)
    ensures WindowsBytes(ranges).Some? <==> forall r :: r in ranges ==> WindowFits(r)
  {
    hide WindowBytes, WindowFits, WindowsCost, WindowCost;
    if ranges != [] {
      var (front, last) := (ranges[..|ranges| - 1], ranges[|ranges| - 1]);
      WindowsFit(front);
      WindowFit(last);
      assert ranges == front + [last];
      assert forall r :: r in ranges <==> r in front || r == last;
    }
  }

  lemma {:induction false} WindowFit(r: PciRange)
    ensures WindowBytes(r).Some? <==> WindowFits(r)
  {
    hide DwordMemory, QwordMemory;
  }

  /** The `reg` of a node ends in 64 bits. */
  predicate RegFits(n: Node) { FirstReg(n).Some? && FirstReg(n).value.0 + FirstReg(n).value.1 < U64_LIMIT }

  /** A bridge the counting pass has accepted can be encoded: windows in their widths, at most 4095 bytes
      of package, and an ECAM window that ends in 64 bits. */
  predicate BridgeFits(n: Node) {
    RegFits(n) && n.ranges.Some? && (forall r :: r in n.ranges.value ==> WindowFits(r)) && WindowsCost(n.ranges.value) <= 4019
  }

  lemma {:induction false} EncodableMeans(n: Node)
    ensures Encodable(Motherboard, n) <==> RegFits(n)
    ensures n.busRange.Some? ==> (Encodable(Motherboard, n) && Encodable(HostBridge, n) <==> BridgeFits(n))
    ensures Encodable(Virtio, n) <==> RegFits(n) && n.interrupts.Some?
    ensures Encodable(IoApics, n) <==> IntcFits(n)
  {
    hide MotherboardDevice, HostBridgeDevice, VirtioDevice, IoApicEntry, WindowsCost, WindowsBytes;
    if n.ranges.Some? { WindowsFit(n.ranges.value); }
  }

  /** What the counting pass has checked about the nodes it charges for. */
  lemma {:induction false} CountedNodes(f: Walk, children: seq<Node>)
    requires CountBytes(f, children).Some?
    ensures forall n :: n in children ==> Wants(f, n).Some?
    ensures forall n :: n in Chosen(f, children) ==> CostOf(f, n).Some?
  {
    hide Wants, CostOf;
    if children != [] {
      var (front, n) := (children[..|children| - 1], children[|children| - 1]);
      CountedNodes(f, front);
      assert children == front + [n];
      assert forall m :: m in children <==> m in front || m == n;
      assert forall m :: m in Chosen(f, children) ==> m in Chosen(f, front) || m == n;
    }
  }

  lemma {:induction false} SameChoice(children: seq<Node>)
    ensures Chosen(Motherboard, children) == Chosen(HostBridge, children) == Chosen(EcamRegions, children)
  {
    if children != [] { SameChoice(children[..|children| - 1]); }
  }

  /** The DSDT of a counted tree can be emitted exactly when every bridge and every virtio transport fits,
      there are at most 255 of each, and the serial node, if any, is complete. */
  lemma {:induction false} DevicesExist(children: seq<Node>)
    requires CountDevices(children).Some? && CountBytes(EcamRegions, children).Some?
    ensures Devices(children).Some? <==>
      && (forall n :: n in Chosen(HostBridge, children) ==> BridgeFits(n)) && |Chosen(HostBridge, children)| <= 255
      && (forall n :: n in Chosen(Virtio, children) ==> RegFits(n) && n.interrupts.Some?) && |Chosen(Virtio, children)| <= 255
      && (FindSerial(children).value.Some? ==> SerialFits(FindSerial(children).value.value))
  {
    hide Blocks, CountBytes, Chosen, FindSerial, SerialFits, SerialDevice, BridgeFits, RegFits, Wants, CostOf;
    BlocksExist(Motherboard, children);
    BlocksExist(HostBridge, children);
    BlocksExist(Virtio, children);
    CountedNodes(Motherboard, children);
    CountedNodes(HostBridge, children);
    CountedNodes(Virtio, children);
    CountedNodes(EcamRegions, children);
    SameChoice(children);
    forall n | n in Chosen(HostBridge, children) ensures Encodable(Motherboard, n) && Encodable(HostBridge, n) <==> BridgeFits(n) {
      CountedEcam(n);
      EncodableMeans(n);
    }
    forall n | n in Chosen(Virtio, children) ensures Encodable(Virtio, n) <==> RegFits(n) && n.interrupts.Some? { EncodableMeans(n); }
    hide Encodable;
  }

  lemma {:induction false} CountedEcam(n: Node)
    ensures CostOf(EcamRegions, n).Some? ==> n.busRange.Some?
  {}

  /** A counted tree's IOAPICs can be emitted exactly when there are at most 255. */
  lemma {:induction false} IoApicsExist(children: seq<Node>)
    requires CountBytes(IoApics, children).Some?
    ensures Blocks(IoApics, children).Some? <==> |Chosen(IoApics, children)| <= 255
  {
    hide Blocks, CountBytes, Chosen, Wants;
    BlocksExist(IoApics, children);
    CountedNodes(IoApics, children);
    forall n | n in Chosen(IoApics, children) ensures Encodable(IoApics, n) { EncodableMeans(n); }
  }

  // ---- segment numbers ----

  /** The segment a bridge's device declares: the byte of its `_SEG` object. */
  function DeviceSegment(device: seq<byte>): byte
    requires |device| >= 35
  {
    device[34]
  }

  /** The segment group of a configuration region. */
  function RegionSegment(entry: seq<byte>): nat
    requires |entry| >= 10
  {
    LeValue(entry[8..10])
  }

  lemma {:induction false} SegmentOfDevice(n: Node, segment: byte)
    requires HostFits(n)
    ensures |HostBridgeDevice(n, segment)| >= 35 && HostBridgeDevice(n, segment)[28..35] == NameByte(Ascii("_SEG"), segment)
    ensures DeviceSegment(HostBridgeDevice(n, segment)) == segment
  {
    hide WindowsBytes, WindowsCost, CrsHeader, WordBusNumber, EndTag, NameDword, EisaId, DeviceHeader, NameSegIndexed, Ascii;
    var d := HostBridgeDevice(n, segment);
    assert d[28..35] == NameByte(Ascii("_SEG"), segment);
    assert d[34] == d[28..35][6] == segment;
  }

  lemma {:induction false} SegmentOfRegion(n: Node)
    requires EcamFits(n)
    ensures RegionSegment(EcamEntry(n)) == 0
  {
    hide Le64, Le32, LeValue, Le16;
    FixedWidthRoundTrip(0);
    assert EcamEntry(n)[8..10] == Le16(0);
  }

  /** MCFG and DSDT number the bridges alike exactly when there is at most one: MCFG puts every bridge into
      segment 0, the DSDT counts up. */
  lemma {:induction false} SegmentsAgreeExactly(children: seq<Node>)
    requires Blocks(HostBridge, children).Some? && Blocks(EcamRegions, children).Some?
    ensures
      var (devices, regions) := (Blocks(HostBridge, children).value, Blocks(EcamRegions, children).value);
      && |devices| == |regions|
      && (forall k :: 0 <= k < |devices| ==> |devices[k]| >= 35 && |regions[k]| >= 10)
      && ((forall k :: 0 <= k < |devices| ==> DeviceSegment(devices[k]) == RegionSegment(regions[k])) <==> |devices| <= 1)
  {
    hide Blocks, Chosen, DeviceSegment, RegionSegment, HostBridgeDevice, EcamEntry, HostFits, EcamFits;
    BlocksExist(HostBridge, children);
    BlocksExist(EcamRegions, children);
    SameChoice(children);
    var (devices, regions, hosts) := (Blocks(HostBridge, children).value, Blocks(EcamRegions, children).value, Chosen(HostBridge, children));
    forall k | 0 <= k < |devices|
      ensures |devices[k]| >= 35 && |regions[k]| >= 10 && DeviceSegment(devices[k]) == k && RegionSegment(regions[k]) == 0
    {
      assert hosts[k] in hosts;
      SegmentOfDevice(hosts[k], k);
      SegmentOfRegion(hosts[k]);
    }
    if |devices| > 1 { assert DeviceSegment(devices[1]) != RegionSegment(regions[1]); }
  }

  /** Counting does not narrow windows: a 32-bit window at 4 GiB is charged but cannot be encoded. */
  lemma {:induction false} WindowCountedButNotEncodable(n: Node)
    requires n.ranges == Some([PciRange(2, U32_LIMIT, 0)])
    ensures CostOf(HostBridge, n) == Some(104) && !Encodable(HostBridge, n)
  {
    var ranges := n.ranges.value;
    assert WindowsCost(ranges[..0]) == 0 && WindowBytes(ranges[0]).None?;
  }
}
