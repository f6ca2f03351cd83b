/**
 * The I/O APIC programming model (Intel 82093AA datasheet, section 3): the
 * indirect register window, the inner register indices, and the bit layouts
 * of the ID, version and arbitration registers and of a 64-bit redirection
 * table entry, each as an encode/decode pair over a raw machine word.
 */
module IoApicRegs {

  // The window: 32-bit words at the controller's base address.
  const IOAPIC_REGSEL: nat := 0  // word index of IOREGSEL, byte offset 0x00
  const IOAPIC_REGWIN: nat := 4  // word index of IOWIN, byte offset 0x10

  // Inner register indices, written to IOREGSEL.
  const IOAPIC_ID: nat := 0
  const IOAPIC_VER: nat := 1
  const IOAPIC_ARB: nat := 2

  /** Byte offset from the base address of the window word with index `word`. */
  function WindowByteOffset(word: nat): nat {
    4 * word
  }

  /** IOREGSEL sits at the base address and IOWIN 16 bytes above it; they never overlap. */
  lemma WindowLayout()
    ensures WindowByteOffset(IOAPIC_REGSEL) == 0x00
    ensures WindowByteOffset(IOAPIC_REGWIN) == 0x10
    ensures WindowByteOffset(IOAPIC_REGSEL) + 4 <= WindowByteOffset(IOAPIC_REGWIN)
  {
  }

  /** Inner index of the low half of redirection entry `n`. */
  function RedEntryLower(n: nat): nat {
    0x10 + 2 * n
  }

  /** Inner index of the high half of redirection entry `n`. */
  function RedEntryHigher(n: nat): nat {
    0x11 + 2 * n
  }

  /**
   * The two halves of an entry are adjacent, the indices of different
   * entries never coincide, and no redirection index is the ID, version or
   * arbitration register.
   */
  lemma RedEntryIndices(n: nat, m: nat)
    ensures RedEntryHigher(n) == RedEntryLower(n) + 1
    ensures n != m ==> RedEntryLower(n) != RedEntryLower(m) && RedEntryHigher(n) != RedEntryHigher(m)
    ensures RedEntryLower(n) != RedEntryHigher(m)
    ensures RedEntryLower(n) !in {IOAPIC_ID, IOAPIC_VER, IOAPIC_ARB}
    ensures RedEntryHigher(n) !in {IOAPIC_ID, IOAPIC_VER, IOAPIC_ARB}
  {
  }

  /** IOAPICID: the controller id in bits 24-27. */
  datatype IdRegister = IdRegister(reserved0: bv24, ioapicId: bv4, reserved1: bv4)

  /** IOAPICVER: the version in bits 0-8, the highest entry index in bits 16-23. */
  datatype VerRegister = VerRegister(version: bv9, reserved0: bv7, maxRedirectionEntry: bv8, reserved1: bv8)

  /** IOAPICARB: the arbitration id in bits 24-27. */
  datatype ArbRegister = ArbRegister(reserved0: bv24, ioapicArbId: bv4, reserved1: bv4)

  function EncodeId(r: IdRegister): bv32 {
    (r.reserved0 as bv32) | ((r.ioapicId as bv32) << 24) | ((r.reserved1 as bv32) << 28)
  }

  /** Decoding is the inverse of encoding: every raw word is the encoding of its decode. */
  function DecodeId(raw: bv32): (r: IdRegister)
    ensures EncodeId(r) == raw
  {
    IdRegister((raw & 0xFF_FFFF) as bv24, ((raw >> 24) & 0xF) as bv4, (raw >> 28) as bv4)
  }

  function EncodeVer(r: VerRegister): bv32 {
    (r.version as bv32) | ((r.reserved0 as bv32) << 9)
    | ((r.maxRedirectionEntry as bv32) << 16) | ((r.reserved1 as bv32) << 24)
  }

  /** Decoding is the inverse of encoding: every raw word is the encoding of its decode. */
  function DecodeVer(raw: bv32): (r: VerRegister)
    ensures EncodeVer(r) == raw
  {
    VerRegister((raw & 0x1FF) as bv9, ((raw >> 9) & 0x7F) as bv7,
                ((raw >> 16) & 0xFF) as bv8, (raw >> 24) as bv8)
  }

  function EncodeArb(r: ArbRegister): bv32 {
    (r.reserved0 as bv32) | ((r.ioapicArbId as bv32) << 24) | ((r.reserved1 as bv32) << 28)
  }

  /** Decoding is the inverse of encoding: every raw word is the encoding of its decode. */
  function DecodeArb(raw: bv32): (r: ArbRegister)
    ensures EncodeArb(r) == raw
  {
    ArbRegister((raw & 0xFF_FFFF) as bv24, ((raw >> 24) & 0xF) as bv4, (raw >> 28) as bv4)
  }

  /** Encoding then decoding gives back every register value, field by field. */
  lemma RegisterRoundTrips(id: IdRegister, ver: VerRegister, arb: ArbRegister)
    ensures DecodeId(EncodeId(id)) == id
    ensures DecodeVer(EncodeVer(ver)) == ver
    ensures DecodeArb(EncodeArb(arb)) == arb
  {
  }

  /** The ID register's id and the arbitration register's id occupy the same bits. */
  lemma IdAndArbShareBits(raw: bv32)
    ensures DecodeId(raw).ioapicId == DecodeArb(raw).ioapicArbId
  {
  }

  // Redirection entry field values.
  const DELIVERY_MODE_FIXED: bv3 := 0
  const DELIVERY_MODE_LOWEST: bv3 := 1
  const DELIVERY_MODE_SMI: bv3 := 2
  const DELIVERY_MODE_NMI: bv3 := 4
  const DELIVERY_MODE_INIT: bv3 := 5
  const DELIVERY_MODE_EXTINT: bv3 := 7
  const DESTINATION_MODE_PHYSICAL: bv1 := 0
  const DESTINATION_MODE_LOGICAL: bv1 := 1
  const DELIVERY_STATUS_RELAXED: bv1 := 0
  const DELIVERY_STATUS_WAITING: bv1 := 1
  const MASK_ENABLED: bv1 := 0   // the line delivers interrupts
  const MASK_DISABLED: bv1 := 1  // the line is masked
  // Polarity and trigger bits, as the override flags name them.
  const PIN_POLARITY_HIGH: bv1 := 0
  const PIN_POLARITY_LOW: bv1 := 1
  const TRIGGER_MODE_EDGE: bv1 := 0
  const TRIGGER_MODE_LEVEL: bv1 := 1

  /**
   * A redirection table entry: vector bits 0-7, delivery mode 8-10,
   * destination mode 11, delivery status 12, pin polarity 13, remote IRR 14,
   * trigger mode 15, mask 16, reserved 17-55, destination 56-63.
   */
  datatype RedirectionEntry = RedirectionEntry(
    vector: bv8,
    deliveryMode: bv3,
    destinationMode: bv1,
    deliveryStatus: bv1,
    pinPolarity: bv1,
    remoteIrr: bv1,
    triggerMode: bv1,
    mask: bv1,
    reserved: bv39,
    destination: bv8)

  /** The entry whose every field is zero (`union ioapic_redirection_entry entry = {0}`). */
  const ZERO_ENTRY := RedirectionEntry(0, 0, 0, 0, 0, 0, 0, 0, 0, 0)

  function EncodeEntry(e: RedirectionEntry): bv64 {
    (e.vector as bv64)
    | ((e.deliveryMode as bv64) << 8)
    | ((e.destinationMode as bv64) << 11)
    | ((e.deliveryStatus as bv64) << 12)
    | ((e.pinPolarity as bv64) << 13)
    | ((e.remoteIrr as bv64) << 14)
    | ((e.triggerMode as bv64) << 15)
    | ((e.mask as bv64) << 16)
    | ((e.reserved as bv64) << 17)
    | ((e.destination as bv64) << 56)
  }

  /** Decoding is the inverse of encoding: every raw word is the encoding of its decode. */
  function DecodeEntry(raw: bv64): (e: RedirectionEntry)
    ensures EncodeEntry(e) == raw
  {
    RedirectionEntry(
      (raw & 0xFF) as bv8,
      ((raw >> 8) & 0x7) as bv3,
      ((raw >> 11) & 0x1) as bv1,
      ((raw >> 12) & 0x1) as bv1,
      ((raw >> 13) & 0x1) as bv1,
      ((raw >> 14) & 0x1) as bv1,
      ((raw >> 15) & 0x1) as bv1,
      ((raw >> 16) & 0x1) as bv1,
      ((raw >> 17) & 0x7F_FFFF_FFFF) as bv39,
      (raw >> 56) as bv8)
  }

  /** Encoding then decoding gives back every field of every entry. */
  lemma EntryRoundTrip(e: RedirectionEntry)
    ensures DecodeEntry(EncodeEntry(e)) == e
  {
  }

  /** The `lower` half of the union: bits 0-31. */
  function Lower(raw: bv64): bv32 {
    (raw & 0xFFFF_FFFF) as bv32
  }

  /** The `higher` half of the union: bits 32-63. */
  function Higher(raw: bv64): bv32 {
    (raw >> 32) as bv32
  }

  /** The entry whose halves are `lower` and `higher`; splitting it gives them back. */
  function Join(lower: bv32, higher: bv32): (raw: bv64)
    ensures Lower(raw) == lower && Higher(raw) == higher
  {
    ((higher as bv64) << 32) | (lower as bv64)
  }

  /** Joining the two halves of a raw entry gives back the entry. */
  lemma SplitJoin(raw: bv64)
    ensures Join(Lower(raw), Higher(raw)) == raw
  {
  }

  /**
   * What each 32-bit half of an encoded entry carries: the low half holds
   * vector through mask, the high half the destination in its top byte.
   */
  lemma EntryHalves(e: RedirectionEntry)
    ensures Lower(EncodeEntry(e)) & 0xFF == e.vector as bv32
    ensures (Lower(EncodeEntry(e)) >> 8) & 0x7 == e.deliveryMode as bv32
    ensures (Lower(EncodeEntry(e)) >> 11) & 1 == e.destinationMode as bv32
    ensures (Lower(EncodeEntry(e)) >> 13) & 1 == e.pinPolarity as bv32
    ensures (Lower(EncodeEntry(e)) >> 15) & 1 == e.triggerMode as bv32
    ensures (Lower(EncodeEntry(e)) >> 16) & 1 == e.mask as bv32
    ensures Higher(EncodeEntry(e)) >> 24 == e.destination as bv32
  {
  }
}
