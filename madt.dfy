/**
 * The Multiple APIC Description Table (MADT, section 5.2.12 of the ACPI
 * specification): its fixed prefix, the variable-length records packed after
 * it, and the bounds-checked cursor step that walks those records.
 *
 * Tables and records are addressed by physical address; 0 is NULL.
 */
module Madt {
  import opened Bytes
  import Acpi

  // Packed MADT prefix: the 36-byte SDT header, then two 32-bit words.
  const MADT_LAPIC_ADDRESS: nat := 36  // uint32 lapic_address at bytes 36-39
  const MADT_FLAGS: nat := 40          // uint32 flags at bytes 40-43
  const MADT_FLAGS_MASK_PIC: nat := 1  // flags bit 0
  const MADT_RECORDS: nat := 44        // the first record

  // Every record starts with a two-byte sub-header.
  const RECORD_ENTRY_TYPE: nat := 0    // uint8 entry_type
  const RECORD_LENGTH: nat := 1        // uint8 length, sub-header included

  const ENTRY_TYPE_LAPIC: byte := 0
  const ENTRY_TYPE_IOAPIC: byte := 1
  const ENTRY_TYPE_ISO: byte := 2
  const ENTRY_TYPE_NMI: byte := 4
  const ENTRY_TYPE_LAPICAO: byte := 5

  const LAPIC_FLAGS_ENABLED: nat := 1  // bit 0
  const LAPIC_FLAGS_ONLINE: nat := 2   // bit 1
  const NMI_LINT0: byte := 0
  const NMI_LINT1: byte := 1

  // MPS INTI flags of an interrupt source override: bit 0 says the polarity
  // is overridden, bit 1 that it is active low, bit 2 that the trigger mode is
  // overridden, bit 3 that it is level triggered.
  const INTERRUPT_FLAGS_POLARITY_OVERRIDE: nat := 1
  const INTERRUPT_FLAGS_LOW: nat := 2
  const INTERRUPT_FLAGS_TRIGGER_OVERRIDE: nat := 4
  const INTERRUPT_FLAGS_LEVEL: nat := 8

  /** An I/O APIC record (type 1, 12 bytes). */
  datatype IoApicRecord = IoApicRecord(ioapicId: byte, ioapicAddress: u32, gsib: u32)

  /** An interrupt source override record (type 2, 10 bytes). */
  datatype IsoRecord = IsoRecord(busSource: byte, irqSource: byte, gsi: u32, interruptFlags: u16)

  /** A record, discriminated by its entry type. */
  datatype Record =
    | Lapic(acpiPid: byte, apicId: byte, lapicFlags: u32)
    | IoApic(ioapic: IoApicRecord)
    | Iso(iso: IsoRecord)
    | Nmi(nmiAcpiPid: byte, nmiFlags: u16, lint: byte)
    | LapicAddressOverride(address: u64)
    | Other(entryType: byte)

  function RecordType(mem: Memory, record: nat): byte {
    mem(record + RECORD_ENTRY_TYPE)
  }

  function RecordLength(mem: Memory, record: nat): byte {
    mem(record + RECORD_LENGTH)
  }

  /** The fields of the I/O APIC record at `record`: id at byte 2, address at 4-7, GSI base at 8-11. */
  function IoApicAt(mem: Memory, record: nat): IoApicRecord {
    IoApicRecord(mem(record + 2), LE32(mem, record + 4), LE32(mem, record + 8))
  }

  /** The fields of the override record at `record`: bus at byte 2, IRQ at 3, GSI at 4-7, flags at 8-9. */
  function IsoAt(mem: Memory, record: nat): IsoRecord {
    IsoRecord(mem(record + 2), mem(record + 3), LE32(mem, record + 4), LE16(mem, record + 8))
  }

  /** The record at `record`, read according to its entry type. */
  function DecodeRecord(mem: Memory, record: nat): (r: Record)
    ensures r.IoApic? <==> RecordType(mem, record) == ENTRY_TYPE_IOAPIC
    ensures r.IoApic? ==> r.ioapic == IoApicAt(mem, record)
    ensures r.Iso? <==> RecordType(mem, record) == ENTRY_TYPE_ISO
    ensures r.Iso? ==> r.iso == IsoAt(mem, record)
    ensures r.Other? <==> RecordType(mem, record) !in {ENTRY_TYPE_LAPIC, ENTRY_TYPE_IOAPIC, ENTRY_TYPE_ISO, ENTRY_TYPE_NMI, ENTRY_TYPE_LAPICAO}
  {
    var t := RecordType(mem, record);
    if t == ENTRY_TYPE_LAPIC then Lapic(mem(record + 2), mem(record + 3), LE32(mem, record + 4))
    else if t == ENTRY_TYPE_IOAPIC then IoApic(IoApicAt(mem, record))
    else if t == ENTRY_TYPE_ISO then Iso(IsoAt(mem, record))
    else if t == ENTRY_TYPE_NMI then Nmi(mem(record + 2), LE16(mem, record + 3), mem(record + 5))
    else if t == ENTRY_TYPE_LAPICAO then LapicAddressOverride(LE64(mem, record + 4))
    else Other(t)
  }

  function PolarityOverridden(flags: u16): bool {
    (flags / INTERRUPT_FLAGS_POLARITY_OVERRIDE) % 2 == 1
  }

  function ActiveLow(flags: u16): bool {
    (flags / INTERRUPT_FLAGS_LOW) % 2 == 1
  }

  function TriggerOverridden(flags: u16): bool {
    (flags / INTERRUPT_FLAGS_TRIGGER_OVERRIDE) % 2 == 1
  }

  function LevelTriggered(flags: u16): bool {
    (flags / INTERRUPT_FLAGS_LEVEL) % 2 == 1
  }

  /** One past the last byte of the table at `madt`, per its header's `length`. */
  function TableEnd(mem: Memory, madt: nat): nat {
    madt + Acpi.SdtLength(mem, madt)
  }

  /**
   * `acpi_madt_nextRecord`: the record after `record`, or NULL when either
   * argument is NULL, when `record` is not inside the record area, or when the
   * next record would start at or past the end of the table.
   */
  function NextRecord(mem: Memory, madt: nat, record: nat): (next: nat)
    ensures next != 0 ==>
      && madt != 0
      && madt + MADT_RECORDS <= record <= next < TableEnd(mem, madt)
      && next == record + RecordLength(mem, record)
    ensures next == 0 <==>
      madt == 0 || record == 0 || record < madt + MADT_RECORDS
      || record + RecordLength(mem, record) >= TableEnd(mem, madt)
    ensures next != 0 && RecordLength(mem, record) > 0 ==> record < next
    ensures madt != 0 && madt + MADT_RECORDS <= record < TableEnd(mem, madt) && RecordLength(mem, record) == 0
      ==> next == record
  {
    if madt == 0 || record == 0 || record < madt + MADT_RECORDS || record >= TableEnd(mem, madt) then 0
    else
      var ret := record + RecordLength(mem, record);
      if ret >= TableEnd(mem, madt) then 0 else ret
  }

  /** Stepping from `record` until the step returns NULL ends: no zero-length record is reached. */
  predicate Terminates(mem: Memory, madt: nat, record: nat)
    decreases TableEnd(mem, madt) - record
  {
    var next := NextRecord(mem, madt, record);
    next == 0 || (record < next && Terminates(mem, madt, next))
  }

  /** The records a caller visits when it starts at `record` and steps while the result is not NULL. */
  ghost function Walk(mem: Memory, madt: nat, record: nat): (w: seq<nat>)
    requires Terminates(mem, madt, record)
    decreases TableEnd(mem, madt) - record
  {
    var next := NextRecord(mem, madt, record);
    if next == 0 then [record] else [record] + Walk(mem, madt, next)
  }

  /** The sum of the lengths of the records at `records`. */
  ghost function LengthSum(mem: Memory, records: seq<nat>): nat {
    if records == [] then 0
    else LengthSum(mem, records[..|records| - 1]) + RecordLength(mem, records[|records| - 1])
  }

  /**
   * The walk from `record` visits `record` first, then each record starts
   * where the previous one ends, strictly increasing, every record after the
   * first inside the record area, and the walk stops at the first record
   * whose end reaches the end of the table (the step from the last record is
   * NULL).
   */
  lemma {:induction false} WalkShape(mem: Memory, madt: nat, record: nat)
    requires Terminates(mem, madt, record)
    ensures var w := Walk(mem, madt, record);
      && |w| >= 1
      && w[0] == record
      && (forall k :: 0 < k < |w| ==> madt + MADT_RECORDS <= w[k] < TableEnd(mem, madt))
      && (forall k :: 0 <= k < |w| - 1 ==> w[k] < w[k + 1] && w[k + 1] == w[k] + RecordLength(mem, w[k]))
      && NextRecord(mem, madt, w[|w| - 1]) == 0
    decreases TableEnd(mem, madt) - record
  {
    var next := NextRecord(mem, madt, record);
    if next != 0 {
      WalkShape(mem, madt, next);
      assert Walk(mem, madt, record) == [record] + Walk(mem, madt, next);
    }
  }

  /**
   * The `k`-th visited record sits at `record` plus the sum of the lengths of
   * the records visited before it: the walk visits the prefix sums of the
   * record lengths, each exactly once.
   */
  lemma {:induction false} WalkOffset(mem: Memory, madt: nat, record: nat, k: nat)
    requires Terminates(mem, madt, record)
    requires k < |Walk(mem, madt, record)|
    ensures Walk(mem, madt, record)[k] == record + LengthSum(mem, Walk(mem, madt, record)[..k])
    decreases k
  {
    var w := Walk(mem, madt, record);
    if k == 0 {
      assert w[..0] == [];
    } else {
      var next := NextRecord(mem, madt, record);
      var v := Walk(mem, madt, next);
      assert w == [record] + v;
      WalkOffset(mem, madt, next, k - 1);
      LengthSumCons(mem, record, v[..k - 1]);
      assert w[..k] == [record] + v[..k - 1];
    }
  }

  lemma {:induction false} LengthSumCons(mem: Memory, first: nat, rest: seq<nat>)
    ensures LengthSum(mem, [first] + rest) == RecordLength(mem, first) + LengthSum(mem, rest)
    decreases |rest|
  {
    if rest == [] {
      assert [first] + rest == [first];
      assert [first][..0] == [];
    } else {
      var init := rest[..|rest| - 1];
      LengthSumCons(mem, first, init);
      assert ([first] + rest)[..|rest|] == [first] + init;
    }
  }

  /** The record reached after `n` steps from `record`; NULL once a step has returned NULL. */
  function Iter(mem: Memory, madt: nat, record: nat, n: nat): nat
    decreases n
  {
    if n == 0 then record else Iter(mem, madt, NextRecord(mem, madt, record), n - 1)
  }

  /** NULL is a fixed point of stepping. */
  lemma {:induction false} IterNull(mem: Memory, madt: nat, n: nat)
    ensures Iter(mem, madt, 0, n) == 0
    decreases n
  {
    if n > 0 {
      IterNull(mem, madt, n - 1);
    }
  }

  /** When every record the walk reaches has positive length, the walk ends. */
  lemma {:induction false} PositiveLengthsTerminate(mem: Memory, madt: nat, record: nat)
    requires forall n: nat :: Iter(mem, madt, record, n) != 0 ==> RecordLength(mem, Iter(mem, madt, record, n)) > 0
    ensures Terminates(mem, madt, record)
    decreases TableEnd(mem, madt) - record
  {
    var next := NextRecord(mem, madt, record);
    if next != 0 {
      assert Iter(mem, madt, record, 0) == record;
      forall n: nat | Iter(mem, madt, next, n) != 0
        ensures RecordLength(mem, Iter(mem, madt, next, n)) > 0
      {
        assert Iter(mem, madt, record, n + 1) == Iter(mem, madt, next, n);
      }
      PositiveLengthsTerminate(mem, madt, next);
    }
  }

  /**
   * Conversely, along a walk that ends every step that does not return NULL
   * moves strictly forward, so no reached record is its own successor.
   */
  lemma {:induction false} TerminatesAdvances(mem: Memory, madt: nat, record: nat, n: nat)
    requires Terminates(mem, madt, record)
    requires Iter(mem, madt, record, n + 1) != 0
    ensures Iter(mem, madt, record, n) < Iter(mem, madt, record, n + 1)
    decreases n
  {
    var next := NextRecord(mem, madt, record);
    if next == 0 {
      IterNull(mem, madt, n);
    } else if n == 0 {
      assert Iter(mem, madt, record, 1) == Iter(mem, madt, next, 0);
    } else {
      TerminatesAdvances(mem, madt, next, n - 1);
      assert Iter(mem, madt, record, n) == Iter(mem, madt, next, n - 1);
      assert Iter(mem, madt, record, n + 1) == Iter(mem, madt, next, n);
    }
  }

  /** A zero-length record inside the table is its own successor, so a walk that reaches it never ends. */
  lemma ZeroLengthDiverges(mem: Memory, madt: nat, record: nat)
    requires madt != 0 && madt + MADT_RECORDS <= record < TableEnd(mem, madt)
    requires RecordLength(mem, record) == 0
    ensures NextRecord(mem, madt, record) == record
    ensures !Terminates(mem, madt, record)
  {
  }
}
