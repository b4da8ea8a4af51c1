/** A device tree as the ACPI generator sees it: every property already decoded, or known to be malformed. */
module DeviceTree {
  import opened Outcomes
  import opened Words
  import opened AcpiCore

  datatype BaseName = CpuName | MemoryName | SerialName | OtherName

  datatype Compatible = PciHost | VirtioMmio | Ns16550a | LocalApic | IoApic | Poweroff | Reboot

  datatype Status = Okay | Disabled | Reserved | Fail

  /** One entry of a host bridge's `ranges`; space 2 is 32-bit and 3 is 64-bit memory. */
  datatype PciRange = PciRange(space: nat, parent: u64, size: u64)

  /** A node. An outer `None` is a malformed or undecodable property; an absent optional property is
      an inner `None` or an empty collection. */
  datatype Node = Node(
    base: BaseName,
    compatible: Option<set<Compatible>>,
    reg: Option<seq<(u64, u64)>>,
    interrupts: Option<(u32, u32)>,
    busRange: Option<(byte, byte)>,
    ranges: Option<seq<PciRange>>,
    regShift: Option<u32>,
    regIoWidth: Option<u32>,
    clockFrequency: Option<u32>,
    currentSpeed: Option<Option<u32>>,
    status: Option<Status>,
    numaNode: Option<Option<u32>>,
    hotpluggable: bool,
    value: Option<Option<u32>>,
    onlySerialProperties: bool)

  datatype Distances = NoMap | NoMatrix | Matrix(raw: seq<byte>)

  /** The root's children; `/cpus` children, absent also when cell counts are malformed; the distance
      matrix; and the node and baud option that `stdout-path` names. */
  datatype Tree = Tree(children: seq<Node>, cpus: Option<seq<Node>>, distances: Distances, stdout: Option<Option<(Node, Option<u32>)>>)

  /** Whether the node lists `c`, if its `compatible` is well-formed. */
  function Has(n: Node, c: Compatible): (b: Option<bool>) {
    if n.compatible.None? then None else Some(c in n.compatible.value)
  }

  /** The first `reg` pair. */
  function FirstReg(n: Node): (r: Option<(u64, u64)>) {
    if n.reg.None? || n.reg.value == [] then None else Some(n.reg.value[0])
  }

  /** The first serial child, which must be a plain ns16550a. */
  function FindSerial(children: seq<Node>): (r: Result<Option<Node>, DtbError>) {
    if children == [] then Success(None)
    else if children[0].base != SerialName then FindSerial(children[1..])
    else if Has(children[0], Ns16550a) != Some(true) || !children[0].onlySerialProperties then Failure(Dtb)
    else Success(Some(children[0]))
  }

  /** Base, access size and interrupt of a UART. */
  function DecodeSerial(n: Node): (r: Result<(u64, byte, u32), DtbError>) {
    if FirstReg(n).None? || n.regIoWidth.None? || n.regIoWidth.value !in {1, 2, 4, 8} || n.interrupts.None? then Failure(Dtb)
    else
      var size := if n.regIoWidth.value == 8 then 4 else if n.regIoWidth.value == 4 then 3 else n.regIoWidth.value;
      Success((FirstReg(n).value.0, size, n.interrupts.value.0))
  }
}
