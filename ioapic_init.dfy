/**
 * `ioapic_initialize`: scan the MADT into the two registries, mask every line
 * of every registered controller, then program ISA IRQs 0-15 (all but the
 * cascade IRQ 2) on the controller that covers each one's GSI.
 */
module IoApicInit {
  import opened Wrappers
  import opened Bytes
  import opened Madt
  import opened IoApicRegs
  import opened IoApic

  /** The registries `ioapics[256]`, keyed by I/O APIC id, and `isos[256]`, keyed by source IRQ. */
  class Registry {
    const ioapics: array<Option<IoApicRecord>>
    const isos: array<Option<IsoRecord>>

    ghost predicate Valid() {
      ioapics.Length == 256 && isos.Length == 256
    }

    /** Both registries start empty (`= {0}`). */
    constructor()
      ensures Valid() && fresh(ioapics) && fresh(isos)
      ensures forall k :: 0 <= k < 256 ==> ioapics[k] == None && isos[k] == None
    {
      ioapics := new Option<IoApicRecord>[256](_ => None);
      isos := new Option<IsoRecord>[256](_ => None);
    }
  }

  // ---------------------------------------------------------------------
  // Scanning the MADT (lines 94-106)

  predicate IsIoApicWithId(mem: Memory, record: nat, id: nat) {
    RecordType(mem, record) == ENTRY_TYPE_IOAPIC && IoApicAt(mem, record).ioapicId == id
  }

  predicate IsIsoForIrq(mem: Memory, record: nat, irq: nat) {
    RecordType(mem, record) == ENTRY_TYPE_ISO && IsoAt(mem, record).irqSource == irq
  }

  /** Slot `id` of `ioapics` after scanning `records` in order, starting from `prior`. */
  function LastIoApic(mem: Memory, records: seq<nat>, id: nat, prior: Option<IoApicRecord>): Option<IoApicRecord>
    decreases |records|
  {
    if records == [] then prior
    else
      var r := records[|records| - 1];
      if IsIoApicWithId(mem, r, id) then Some(IoApicAt(mem, r))
      else LastIoApic(mem, records[..|records| - 1], id, prior)
  }

  /** Slot `irq` of `isos` after scanning `records` in order, starting from `prior`. */
  function LastIso(mem: Memory, records: seq<nat>, irq: nat, prior: Option<IsoRecord>): Option<IsoRecord>
    decreases |records|
  {
    if records == [] then prior
    else
      var r := records[|records| - 1];
      if IsIsoForIrq(mem, r, irq) then Some(IsoAt(mem, r))
      else LastIso(mem, records[..|records| - 1], irq, prior)
  }

  /** The whole `ioapics` registry after scanning `records`. */
  function ScanIoApics(mem: Memory, records: seq<nat>, prior: seq<Option<IoApicRecord>>): (ios: seq<Option<IoApicRecord>>)
    requires |prior| == 256
    ensures |ios| == 256
  {
    seq(256, k requires 0 <= k < 256 => LastIoApic(mem, records, k, prior[k]))
  }

  /** The whole `isos` registry after scanning `records`. */
  function ScanIsos(mem: Memory, records: seq<nat>, prior: seq<Option<IsoRecord>>): (isos: seq<Option<IsoRecord>>)
    requires |prior| == 256
    ensures |isos| == 256
  {
    seq(256, k requires 0 <= k < 256 => LastIso(mem, records, k, prior[k]))
  }

  /** A registry slot keeps its prior content when no scanned record has its key. */
  lemma {:induction false} LastIoApicUnmatched(mem: Memory, records: seq<nat>, id: nat, prior: Option<IoApicRecord>)
    requires forall k :: 0 <= k < |records| ==> !IsIoApicWithId(mem, records[k], id)
    ensures LastIoApic(mem, records, id, prior) == prior
    decreases |records|
  {
    if records != [] {
      var init := records[..|records| - 1];
      assert forall k :: 0 <= k < |init| ==> init[k] == records[k];
      LastIoApicUnmatched(mem, init, id, prior);
    }
  }

  /** A registry slot holds the last scanned record with its key. */
  lemma {:induction false} LastIoApicMatched(mem: Memory, records: seq<nat>, id: nat, prior: Option<IoApicRecord>, k: nat)
    requires k < |records| && IsIoApicWithId(mem, records[k], id)
    requires forall l :: k < l < |records| ==> !IsIoApicWithId(mem, records[l], id)
    ensures LastIoApic(mem, records, id, prior) == Some(IoApicAt(mem, records[k]))
    decreases |records|
  {
    if k < |records| - 1 {
      var init := records[..|records| - 1];
      assert forall l :: 0 <= l < |init| ==> init[l] == records[l];
      LastIoApicMatched(mem, init, id, prior, k);
    }
  }

  /** An override registry slot keeps its prior content when no scanned record has its IRQ. */
  lemma {:induction false} LastIsoUnmatched(mem: Memory, records: seq<nat>, irq: nat, prior: Option<IsoRecord>)
    requires forall k :: 0 <= k < |records| ==> !IsIsoForIrq(mem, records[k], irq)
    ensures LastIso(mem, records, irq, prior) == prior
    decreases |records|
  {
    if records != [] {
      var init := records[..|records| - 1];
      assert forall k :: 0 <= k < |init| ==> init[k] == records[k];
      LastIsoUnmatched(mem, init, irq, prior);
    }
  }

  /** An override registry slot holds the last scanned override for its IRQ. */
  lemma {:induction false} LastIsoMatched(mem: Memory, records: seq<nat>, irq: nat, prior: Option<IsoRecord>, k: nat)
    requires k < |records| && IsIsoForIrq(mem, records[k], irq)
    requires forall l :: k < l < |records| ==> !IsIsoForIrq(mem, records[l], irq)
    ensures LastIso(mem, records, irq, prior) == Some(IsoAt(mem, records[k]))
    decreases |records|
  {
    if k < |records| - 1 {
      var init := records[..|records| - 1];
      assert forall l :: 0 <= l < |init| ==> init[l] == records[l];
      LastIsoMatched(mem, init, irq, prior, k);
    }
  }

  /** Scanning one more record updates at most the slot that record's key selects. */
  lemma LastIoApicSnoc(mem: Memory, records: seq<nat>, r: nat, id: nat, prior: Option<IoApicRecord>)
    ensures LastIoApic(mem, records + [r], id, prior)
      == if IsIoApicWithId(mem, r, id) then Some(IoApicAt(mem, r)) else LastIoApic(mem, records, id, prior)
  {
    assert (records + [r])[..|records|] == records;
  }

  lemma LastIsoSnoc(mem: Memory, records: seq<nat>, r: nat, irq: nat, prior: Option<IsoRecord>)
    ensures LastIso(mem, records + [r], irq, prior)
      == if IsIsoForIrq(mem, r, irq) then Some(IsoAt(mem, r)) else LastIso(mem, records, irq, prior)
  {
    assert (records + [r])[..|records|] == records;
  }

  /**
   * Scanning one more record sets the one slot its key selects when it is an
   * I/O APIC (respectively override) record, and changes nothing otherwise.
   */
  lemma ScanSnoc(mem: Memory, records: seq<nat>, r: nat,
                 ios: seq<Option<IoApicRecord>>, isos: seq<Option<IsoRecord>>)
    requires |ios| == 256 && |isos| == 256
    ensures ScanIoApics(mem, records + [r], ios) ==
      if RecordType(mem, r) == ENTRY_TYPE_IOAPIC
      then ScanIoApics(mem, records, ios)[IoApicAt(mem, r).ioapicId := Some(IoApicAt(mem, r))]
      else ScanIoApics(mem, records, ios)
    ensures ScanIsos(mem, records + [r], isos) ==
      if RecordType(mem, r) == ENTRY_TYPE_ISO
      then ScanIsos(mem, records, isos)[IsoAt(mem, r).irqSource := Some(IsoAt(mem, r))]
      else ScanIsos(mem, records, isos)
  {
    forall id | 0 <= id < 256
      ensures LastIoApic(mem, records + [r], id, ios[id])
        == if IsIoApicWithId(mem, r, id) then Some(IoApicAt(mem, r)) else LastIoApic(mem, records, id, ios[id])
      ensures LastIso(mem, records + [r], id, isos[id])
        == if IsIsoForIrq(mem, r, id) then Some(IsoAt(mem, r)) else LastIso(mem, records, id, isos[id])
    {
      LastIoApicSnoc(mem, records, r, id, ios[id]);
      LastIsoSnoc(mem, records, r, id, isos[id]);
    }
  }

  /** One step of the caller's loop moves one record from the rest of the walk to the visited part. */
  lemma WalkStep(mem: Memory, madt: nat, record: nat, visited: seq<nat>, walk: seq<nat>)
    requires Terminates(mem, madt, record) && visited + Walk(mem, madt, record) == walk
    ensures var next := NextRecord(mem, madt, record);
      && (next != 0 ==> Terminates(mem, madt, next) && (visited + [record]) + Walk(mem, madt, next) == walk
                        && |Walk(mem, madt, next)| < |Walk(mem, madt, record)|)
      && (next == 0 ==> visited + [record] == walk)
  {
    var next := NextRecord(mem, madt, record);
    if next != 0 {
      assert visited + ([record] + Walk(mem, madt, next)) == (visited + [record]) + Walk(mem, madt, next);
    }
  }

  /** The `while (record != 0)` scan, starting at the first record. */
  method Scan(reg: Registry, mem: Memory, madt: nat)
    requires reg.Valid() && madt != 0 && Terminates(mem, madt, madt + MADT_RECORDS)
    modifies reg.ioapics, reg.isos
    ensures reg.ioapics[..] == ScanIoApics(mem, Walk(mem, madt, madt + MADT_RECORDS), old(reg.ioapics[..]))
    ensures reg.isos[..] == ScanIsos(mem, Walk(mem, madt, madt + MADT_RECORDS), old(reg.isos[..]))
  {
    ghost var walk := Walk(mem, madt, madt + MADT_RECORDS);
    ghost var ios0 := reg.ioapics[..];
    ghost var isos0 := reg.isos[..];
    ghost var visited: seq<nat> := [];
    assert ScanIoApics(mem, [], ios0) == ios0;
    assert ScanIsos(mem, [], isos0) == isos0;
    var record: nat := madt + MADT_RECORDS;
    while record != 0
      invariant record != 0 ==> Terminates(mem, madt, record) && visited + Walk(mem, madt, record) == walk
      invariant record == 0 ==> visited == walk
      invariant reg.ioapics[..] == ScanIoApics(mem, visited, ios0)
      invariant reg.isos[..] == ScanIsos(mem, visited, isos0)
      decreases if record == 0 then 0 else |Walk(mem, madt, record)|
    {
      WalkStep(mem, madt, record, visited, walk);
      ScanSnoc(mem, visited, record, ios0, isos0);
      if RecordType(mem, record) == ENTRY_TYPE_IOAPIC {
        var ioapic := IoApicAt(mem, record);
        reg.ioapics[ioapic.ioapicId] := Some(ioapic);
      } else if RecordType(mem, record) == ENTRY_TYPE_ISO {
        var iso := IsoAt(mem, record);
        reg.isos[iso.irqSource] := Some(iso);
      }
      visited := visited + [record];
      record := NextRecord(mem, madt, record);
    }
  }

  // ---------------------------------------------------------------------
  // Masking every line (lines 108-117)

  /** `{.mask = IOAPIC_REDIRECTION_ENTRY_MASK_DISABLED}`: every other field zero. */
  const MASKED_ENTRY := ZERO_ENTRY.(mask := MASK_DISABLED)

  /** The masked entry's only set bit is the mask bit, bit 16. */
  lemma MaskedEntryWord()
    ensures EncodeEntry(MASKED_ENTRY) == 0x1_0000
    ensures Lower(EncodeEntry(MASKED_ENTRY)) == 0x1_0000 && Higher(EncodeEntry(MASKED_ENTRY)) == 0
  {
  }

  /** The registers of every controller agree on their version register. */
  ghost predicate SameVer(bus: Bus, bus0: Bus) {
    forall b: nat :: Reg(bus, b, IOAPIC_VER) == Reg(bus0, b, IOAPIC_VER)
  }

  /** A read of the version register of the controller at `base` (`ioapic_read_ver`). */
  function VerReadTrace(bus: Bus, base: nat): seq<Access> {
    ReadTrace(base, IOAPIC_VER, RegValue(bus, base, IOAPIC_VER))
  }

  /** Masking lines 0 .. n-1 of the controller at `base`, in order. */
  function MaskLines(base: nat, n: nat): seq<Access>
    requires n <= 256
  {
    if n == 0 then []
    else MaskLines(base, n - 1) + WriteEntryTrace(base, (n - 1) as byte, MASKED_ENTRY)
  }

  lemma MaskLinesSnoc(base: nat, j: nat)
    requires j < 256
    ensures MaskLines(base, j + 1) == MaskLines(base, j) + WriteEntryTrace(base, j as byte, MASKED_ENTRY)
  {
  }

  /** Reading the version register of one controller, then masking lines 0 .. max. */
  function ControllerMaskTrace(bus: Bus, base: nat): seq<Access> {
    VerReadTrace(bus, base) + MaskLines(base, MaxEntry(bus, base) + 1)
  }

  /** The masking pass over registry slots 0 .. i-1, version registers as in `bus`. */
  function MaskPass(bus: Bus, ios: seq<Option<IoApicRecord>>, i: nat): seq<Access>
    requires i <= |ios|
  {
    if i == 0 then []
    else if ios[i - 1].Some? then MaskPass(bus, ios, i - 1) + ControllerMaskTrace(bus, ios[i - 1].value.ioapicAddress)
    else MaskPass(bus, ios, i - 1)
  }

  /** Writing a redirection entry leaves every version register as it was. */
  lemma EntryWriteKeepsVer(bus: Bus, base: nat, n: byte, e: RedirectionEntry)
    ensures SameVer(Replay(bus, WriteEntryTrace(base, n, e)), bus)
  {
    forall b: nat ensures Reg(Replay(bus, WriteEntryTrace(base, n, e)), b, IOAPIC_VER) == Reg(bus, b, IOAPIC_VER) {
      WriteEntryEffect(bus, base, n, e, b, IOAPIC_VER);
    }
  }

  /** A register read leaves every register as it was. */
  lemma ReadKeepsRegs(bus: Bus, base: nat, reg: u32, value: bv32)
    ensures SameVer(Replay(bus, ReadTrace(base, reg, value)), bus)
  {
    forall b: nat ensures Reg(Replay(bus, ReadTrace(base, reg, value)), b, IOAPIC_VER) == Reg(bus, b, IOAPIC_VER) {
      ReadTraceEffect(bus, base, reg, value, b, IOAPIC_VER);
    }
  }

  /** Equal version registers give the same decoded versions and version reads. */
  lemma SameVerReads(bus: Bus, bus0: Bus, base: nat)
    requires SameVer(bus, bus0)
    ensures RegValue(bus, base, IOAPIC_VER) == RegValue(bus0, base, IOAPIC_VER)
    ensures VerOf(bus, base) == VerOf(bus0, base) && MaxEntry(bus, base) == MaxEntry(bus0, base)
    ensures VerReadTrace(bus, base) == VerReadTrace(bus0, base)
  {
  }

  /** Masking the lines of one controller: `max_redirection_entry + 1` masked entries, lines 0 .. max. */
  method MaskController(hw: Mmio, base: nat, ghost bus0: Bus)
    requires SameVer(hw.bus, bus0)
    modifies hw
    ensures SameVer(hw.bus, bus0)
    ensures hw.trace == old(hw.trace) + ControllerMaskTrace(bus0, base)
    ensures hw.bus == Replay(old(hw.bus), ControllerMaskTrace(bus0, base))
  {
    ghost var b0 := hw.bus;
    SameVerReads(hw.bus, bus0, base);
    var ver := IoApicReadVer(hw, base);
    assert SameVer(hw.bus, bus0) by {
      ReadKeepsRegs(b0, base, IOAPIC_VER, RegValue(b0, base, IOAPIC_VER));
    }
    ghost var b1 := hw.bus;
    ghost var t1 := hw.trace;
    ghost var max := MaxEntry(bus0, base);
    for j := 0 to ver.maxRedirectionEntry as nat + 1
      invariant SameVer(hw.bus, bus0)
      invariant hw.trace == t1 + MaskLines(base, j)
      invariant hw.bus == Replay(b1, MaskLines(base, j))
    {
      ghost var before := hw.bus;
      ghost var w := WriteEntryTrace(base, j as byte, MASKED_ENTRY);
      IoApicWriteRedirectionEntry(hw, base, j as byte, MASKED_ENTRY);
      assert MaskLines(base, j + 1) == MaskLines(base, j) + w by {
        MaskLinesSnoc(base, j);
      }
      assert SameVer(hw.bus, bus0) by {
        EntryWriteKeepsVer(before, base, j as byte, MASKED_ENTRY);
      }
      assert hw.bus == Replay(b1, MaskLines(base, j) + w) by {
        ReplayAppend(b1, MaskLines(base, j), w);
      }
      assert hw.trace == t1 + (MaskLines(base, j) + w) by {
        AppendAssoc(t1, MaskLines(base, j), w);
      }
    }
    assert hw.trace == old(hw.trace) + ControllerMaskTrace(bus0, base) by {
      AppendAssoc(old(hw.trace), VerReadTrace(bus0, base), MaskLines(base, max + 1));
    }
    assert hw.bus == Replay(old(hw.bus), ControllerMaskTrace(bus0, base)) by {
      ReplayAppend(b0, VerReadTrace(bus0, base), MaskLines(base, max + 1));
    }
  }

  /** Lines 108-117: every registered controller, in registry order. */
  method MaskAll(hw: Mmio, reg: Registry, ghost bus0: Bus)
    requires reg.Valid() && SameVer(hw.bus, bus0)
    modifies hw
    ensures SameVer(hw.bus, bus0)
    ensures hw.trace == old(hw.trace) + MaskPass(bus0, reg.ioapics[..], 256)
    ensures hw.bus == Replay(old(hw.bus), MaskPass(bus0, reg.ioapics[..], 256))
  {
    ghost var t0 := hw.trace;
    ghost var b0 := hw.bus;
    ghost var ios := reg.ioapics[..];
    for i := 0 to 256
      invariant SameVer(hw.bus, bus0)
      invariant hw.trace == t0 + MaskPass(bus0, ios, i)
      invariant hw.bus == Replay(b0, MaskPass(bus0, ios, i))
    {
      if reg.ioapics[i] != None {
        ghost var c := ControllerMaskTrace(bus0, ios[i].value.ioapicAddress);
        MaskController(hw, reg.ioapics[i].value.ioapicAddress, bus0);
        ReplayAppend(b0, MaskPass(bus0, ios, i), c);
        AppendAssoc(t0, MaskPass(bus0, ios, i), c);
      }
    }
  }

  // ---------------------------------------------------------------------
  // Routing a GSI to a controller (lines 145-154)

  /**
   * Whether the controller of `rec` covers `gsi`: `gsib <= gsi` and
   * `gsi <= gsib + max_redirection_entry`, the sum in 32-bit arithmetic.
   */
  predicate Covers(bus: Bus, rec: IoApicRecord, gsi: nat) {
    rec.gsib <= gsi && gsi <= (rec.gsib + MaxEntry(bus, rec.ioapicAddress)) % U32_MODULUS
  }

  /**
   * A covered GSI lies within the controller's entries: the wrapped sum can
   * only admit GSIs the unwrapped range admits, so `gsi - gsib` is a line
   * number from 0 to the highest entry index, and its `uint8_t` truncation
   * changes nothing.
   */
  lemma CoveredLine(bus: Bus, rec: IoApicRecord, gsi: nat)
    requires Covers(bus, rec, gsi)
    ensures 0 <= gsi - rec.gsib <= MaxEntry(bus, rec.ioapicAddress) <= 255
    ensures (gsi - rec.gsib) % 256 == gsi - rec.gsib
  {
  }

  /** The lowest registry slot from `from` on whose controller covers `gsi`. */
  function Route(bus: Bus, ios: seq<Option<IoApicRecord>>, gsi: nat, from: nat): (r: Option<nat>)
    requires |ios| == 256 && from <= 256
    ensures r.Some? ==> from <= r.value < 256 && ios[r.value].Some? && Covers(bus, ios[r.value].value, gsi)
    decreases 256 - from
  {
    if from == 256 then None
    else if ios[from].Some? && Covers(bus, ios[from].value, gsi) then Some(from)
    else Route(bus, ios, gsi, from + 1)
  }

  /**
   * `Route` finds a registered controller that covers the GSI, below which
   * none does, and finds none only when no registered controller covers it.
   */
  lemma {:induction false} RouteIsLowest(bus: Bus, ios: seq<Option<IoApicRecord>>, gsi: nat, from: nat)
    requires |ios| == 256 && from <= 256
    ensures match Route(bus, ios, gsi, from)
            case Some(k) =>
              && from <= k < 256 && ios[k].Some? && Covers(bus, ios[k].value, gsi)
              && forall j :: from <= j < k ==> !(ios[j].Some? && Covers(bus, ios[j].value, gsi))
            case None =>
              forall j :: from <= j < 256 ==> !(ios[j].Some? && Covers(bus, ios[j].value, gsi))
    decreases 256 - from
  {
    if from < 256 && !(ios[from].Some? && Covers(bus, ios[from].value, gsi)) {
      RouteIsLowest(bus, ios, gsi, from + 1);
    }
  }

  /** One step of the routing search. */
  lemma RouteStep(bus: Bus, ios: seq<Option<IoApicRecord>>, gsi: nat, j: nat)
    requires |ios| == 256 && j < 256
    ensures Route(bus, ios, gsi, j)
      == if ios[j].Some? && Covers(bus, ios[j].value, gsi) then Some(j) else Route(bus, ios, gsi, j + 1)
  {
  }

  /** Version reads of the registered controllers in slots 0 .. to-1. */
  function VerReads(bus: Bus, ios: seq<Option<IoApicRecord>>, to: nat): seq<Access>
    requires to <= |ios|
  {
    if to == 0 then []
    else if ios[to - 1].Some? then VerReads(bus, ios, to - 1) + VerReadTrace(bus, ios[to - 1].value.ioapicAddress)
    else VerReads(bus, ios, to - 1)
  }

  /** One more slot adds a version read exactly when it is registered. */
  lemma VerReadsStep(bus: Bus, ios: seq<Option<IoApicRecord>>, j: nat)
    requires j < |ios|
    ensures VerReads(bus, ios, j + 1)
      == if ios[j].Some? then VerReads(bus, ios, j) + VerReadTrace(bus, ios[j].value.ioapicAddress) else VerReads(bus, ios, j)
  {
  }

  /**
   * The body of the routing loop for one registered controller: read its
   * version register and test whether its range covers `gsi`.
   */
  method ProbeController(hw: Mmio, ioapic: IoApicRecord, gsi: u32, ghost bus0: Bus) returns (covers: bool)
    requires SameVer(hw.bus, bus0)
    modifies hw
    ensures covers == Covers(bus0, ioapic, gsi)
    ensures SameVer(hw.bus, bus0)
    ensures hw.trace == old(hw.trace) + VerReadTrace(bus0, ioapic.ioapicAddress)
    ensures hw.bus == Replay(old(hw.bus), VerReadTrace(bus0, ioapic.ioapicAddress))
  {
    ghost var before := hw.bus;
    SameVerReads(hw.bus, bus0, ioapic.ioapicAddress);
    var ver := IoApicReadVer(hw, ioapic.ioapicAddress);
    assert SameVer(hw.bus, bus0) by {
      ReadKeepsRegs(before, ioapic.ioapicAddress, IOAPIC_VER, RegValue(before, ioapic.ioapicAddress, IOAPIC_VER));
    }
    covers := gsi >= ioapic.gsib && gsi <= (ioapic.gsib + ver.maxRedirectionEntry as nat) % U32_MODULUS;
  }

  /**
   * One turn of the routing loop: probe slot `j` when it is registered,
   * extending the version reads of slots 0 .. j-1 to those of 0 .. j.
   */
  method ProbeSlot(hw: Mmio, reg: Registry, gsi: u32, j: nat, ghost bus0: Bus, ghost t0: seq<Access>, ghost b0: Bus)
      returns (found: bool)
    requires reg.Valid() && j < 256 && SameVer(hw.bus, bus0)
    requires hw.trace == t0 + VerReads(bus0, reg.ioapics[..], j)
    requires hw.bus == Replay(b0, VerReads(bus0, reg.ioapics[..], j))
    modifies hw
    ensures found == (reg.ioapics[j].Some? && Covers(bus0, reg.ioapics[j].value, gsi))
    ensures SameVer(hw.bus, bus0)
    ensures hw.trace == t0 + VerReads(bus0, reg.ioapics[..], j + 1)
    ensures hw.bus == Replay(b0, VerReads(bus0, reg.ioapics[..], j + 1))
  {
    ghost var ios := reg.ioapics[..];
    VerReadsStep(bus0, ios, j);
    found := false;
    if reg.ioapics[j] != None {
      found := ProbeController(hw, reg.ioapics[j].value, gsi, bus0);
      AppendAssoc(t0, VerReads(bus0, ios, j), VerReadTrace(bus0, ios[j].value.ioapicAddress));
      ReplayAppend(b0, VerReads(bus0, ios, j), VerReadTrace(bus0, ios[j].value.ioapicAddress));
    }
  }

  /**
   * The routing loop: probe each registered controller in registry order
   * until one covers `gsi`; return its slot. Coverage is the caller's
   * obligation (otherwise the C code leaves `ioapic` uninitialised).
   */
  method RouteGsi(hw: Mmio, reg: Registry, gsi: u32, ghost bus0: Bus) returns (k: nat)
    requires reg.Valid() && SameVer(hw.bus, bus0)
    requires Route(bus0, reg.ioapics[..], gsi, 0).Some?
    modifies hw
    ensures k < 256 && Route(bus0, reg.ioapics[..], gsi, 0) == Some(k)
    ensures SameVer(hw.bus, bus0)
    ensures hw.trace == old(hw.trace) + VerReads(bus0, reg.ioapics[..], k + 1)
    ensures hw.bus == Replay(old(hw.bus), VerReads(bus0, reg.ioapics[..], k + 1))
  {
    ghost var ios := reg.ioapics[..];
    ghost var t0 := hw.trace;
    ghost var b0 := hw.bus;
    k := 0;
    var j := 0;
    while j < 256
      invariant 0 <= j <= 256
      invariant SameVer(hw.bus, bus0)
      invariant Route(bus0, ios, gsi, 0) == Route(bus0, ios, gsi, j)
      invariant hw.trace == t0 + VerReads(bus0, ios, j)
      invariant hw.bus == Replay(b0, VerReads(bus0, ios, j))
    {
      RouteStep(bus0, ios, gsi, j);
      var found := ProbeSlot(hw, reg, gsi, j, bus0, t0, b0);
      if found {
        k := j;
        break;
      }
      j := j + 1;
    }
  }

  // ---------------------------------------------------------------------
  // Programming the ISA IRQs (lines 119-158)

  /** The GSI of ISA IRQ `i`: the override's GSI when there is one, else `i` itself. */
  function LineGsi(isos: seq<Option<IsoRecord>>, i: nat): u32
    requires |isos| == 256 && i < 16
  {
    if isos[i].Some? then isos[i].value.gsi else i
  }

  /**
   * The entry for ISA IRQ `i` with override `iso`: vector 0, fixed delivery,
   * physical destination `pid`, masked; active high and edge triggered unless
   * the override's flags override polarity or trigger mode.
   */
  function IsaEntry(pid: bv8, iso: Option<IsoRecord>): RedirectionEntry {
    var polarity :=
      if iso.Some? && PolarityOverridden(iso.value.interruptFlags) && ActiveLow(iso.value.interruptFlags)
      then PIN_POLARITY_LOW else PIN_POLARITY_HIGH;
    var trigger :=
      if iso.Some? && TriggerOverridden(iso.value.interruptFlags) && LevelTriggered(iso.value.interruptFlags)
      then TRIGGER_MODE_LEVEL else TRIGGER_MODE_EDGE;
    RedirectionEntry(0, DELIVERY_MODE_FIXED, DESTINATION_MODE_PHYSICAL, DELIVERY_STATUS_RELAXED,
                     polarity, 0, trigger, MASK_DISABLED, 0, pid)
  }

  /**
   * The 64-bit word programmed for an ISA IRQ: destination `pid` in bits
   * 56-63, the mask bit 16, bit 13 exactly when the override makes it active
   * low, bit 15 exactly when it makes it level triggered, nothing else.
   */
  lemma IsaEntryWord(pid: bv8, iso: Option<IsoRecord>)
    ensures var low := iso.Some? && PolarityOverridden(iso.value.interruptFlags) && ActiveLow(iso.value.interruptFlags);
      var level := iso.Some? && TriggerOverridden(iso.value.interruptFlags) && LevelTriggered(iso.value.interruptFlags);
      EncodeEntry(IsaEntry(pid, iso))
        == ((pid as bv64) << 56) | 0x1_0000 | (if low then 0x2000 else 0) | (if level then 0x8000 else 0)
  {
  }

  /** Every ISA IRQ but 2 has a registered controller covering its GSI. */
  ghost predicate Routable(bus: Bus, ios: seq<Option<IoApicRecord>>, isos: seq<Option<IsoRecord>>) {
    && |ios| == 256 && |isos| == 256
    && forall i :: 0 <= i < 16 && i != 2 ==> Route(bus, ios, LineGsi(isos, i), 0).Some?
  }

  /** The controller slot ISA IRQ `i` is routed to. */
  function LineController(bus: Bus, ios: seq<Option<IoApicRecord>>, isos: seq<Option<IsoRecord>>, i: nat): (k: nat)
    requires Routable(bus, ios, isos) && i < 16 && i != 2
    ensures k < 256 && ios[k].Some?
  {
    Route(bus, ios, LineGsi(isos, i), 0).value
  }

  /** The line of that controller: `gsi - gsib`, truncated to `uint8_t`. */
  function LinePin(bus: Bus, ios: seq<Option<IoApicRecord>>, isos: seq<Option<IsoRecord>>, i: nat): byte
    requires Routable(bus, ios, isos) && i < 16 && i != 2
  {
    (LineGsi(isos, i) - ios[LineController(bus, ios, isos, i)].value.gsib) % 256
  }

  /** The accesses for ISA IRQ `i`: the routing loop's version reads, then the entry write. */
  function IsaLineTrace(bus: Bus, ios: seq<Option<IoApicRecord>>, isos: seq<Option<IsoRecord>>, pid: bv8, i: nat): seq<Access>
    requires Routable(bus, ios, isos) && i < 16 && i != 2
  {
    var k := LineController(bus, ios, isos, i);
    VerReads(bus, ios, k + 1) + WriteEntryTrace(ios[k].value.ioapicAddress, LinePin(bus, ios, isos, i), IsaEntry(pid, isos[i]))
  }

  /** The ISA pass over IRQs 0 .. n-1, IRQ 2 skipped. */
  function IsaPass(bus: Bus, ios: seq<Option<IoApicRecord>>, isos: seq<Option<IsoRecord>>, pid: bv8, n: nat): seq<Access>
    requires Routable(bus, ios, isos) && n <= 16
  {
    if n == 0 then []
    else if n - 1 == 2 then IsaPass(bus, ios, isos, pid, n - 1)
    else IsaPass(bus, ios, isos, pid, n - 1) + IsaLineTrace(bus, ios, isos, pid, n - 1)
  }

  /**
   * Lines 121-143: the default entry for ISA IRQ `i` and its GSI, with the
   * override's GSI and overridden polarity and trigger mode when `isos[i]`
   * holds one.
   */
  method BuildIsaEntry(reg: Registry, i: nat, acpiPid: bv8) returns (entry: RedirectionEntry, gsi: u32)
    requires reg.Valid() && i < 16
    ensures entry == IsaEntry(acpiPid, reg.isos[i])
    ensures gsi == LineGsi(reg.isos[..], i)
  {
    entry := RedirectionEntry(0, DELIVERY_MODE_FIXED, DESTINATION_MODE_PHYSICAL, DELIVERY_STATUS_RELAXED,
                              PIN_POLARITY_HIGH, 0, TRIGGER_MODE_EDGE, MASK_DISABLED, 0, acpiPid);
    gsi := i;
    if reg.isos[i] != None {
      var iso := reg.isos[i].value;
      gsi := iso.gsi;
      if PolarityOverridden(iso.interruptFlags) {
        entry := entry.(pinPolarity := if ActiveLow(iso.interruptFlags) then 1 else 0);
      }
      if TriggerOverridden(iso.interruptFlags) {
        entry := entry.(triggerMode := if LevelTriggered(iso.interruptFlags) then 1 else 0);
      }
    }
  }

  /** One ISA IRQ other than 2 (lines 121-156): build its entry, route its GSI, write the entry. */
  method ProgramLine(hw: Mmio, reg: Registry, i: nat, acpiPid: bv8, ghost bus0: Bus)
    requires reg.Valid() && SameVer(hw.bus, bus0) && Routable(bus0, reg.ioapics[..], reg.isos[..])
    requires i < 16 && i != 2
    modifies hw
    ensures SameVer(hw.bus, bus0)
    ensures hw.trace == old(hw.trace) + IsaLineTrace(bus0, reg.ioapics[..], reg.isos[..], acpiPid, i)
    ensures hw.bus == Replay(old(hw.bus), IsaLineTrace(bus0, reg.ioapics[..], reg.isos[..], acpiPid, i))
  {
    ghost var ios := reg.ioapics[..];
    ghost var isos := reg.isos[..];
    var entry, gsi := BuildIsaEntry(reg, i, acpiPid);
    ghost var b0 := hw.bus;
    ghost var t0 := hw.trace;
    var k := RouteGsi(hw, reg, gsi, bus0);
    var ioapic := reg.ioapics[k].value;
    ghost var probes := VerReads(bus0, ios, k + 1);
    ghost var before := hw.bus;
    ghost var w := WriteEntryTrace(ioapic.ioapicAddress, (gsi - ioapic.gsib) % 256, entry);
    IoApicWriteRedirectionEntry(hw, ioapic.ioapicAddress, (gsi - ioapic.gsib) % 256, entry);
    assert SameVer(hw.bus, bus0) by {
      EntryWriteKeepsVer(before, ioapic.ioapicAddress, (gsi - ioapic.gsib) % 256, entry);
    }
    assert k == LineController(bus0, ios, isos, i);
    assert (gsi - ioapic.gsib) % 256 == LinePin(bus0, ios, isos, i);
    assert IsaLineTrace(bus0, ios, isos, acpiPid, i) == probes + w;
    AppendAssoc(t0, probes, w);
    ReplayAppend(b0, probes, w);
  }

  /** Lines 119-158: ISA IRQs 0 .. 15 in order, IRQ 2 (the cascade) skipped. */
  method ProgramIsa(hw: Mmio, reg: Registry, acpiPid: bv8, ghost bus0: Bus)
    requires reg.Valid() && SameVer(hw.bus, bus0) && Routable(bus0, reg.ioapics[..], reg.isos[..])
    modifies hw
    ensures SameVer(hw.bus, bus0)
    ensures hw.trace == old(hw.trace) + IsaPass(bus0, reg.ioapics[..], reg.isos[..], acpiPid, 16)
    ensures hw.bus == Replay(old(hw.bus), IsaPass(bus0, reg.ioapics[..], reg.isos[..], acpiPid, 16))
  {
    ghost var ios := reg.ioapics[..];
    ghost var isos := reg.isos[..];
    ghost var t0 := hw.trace;
    ghost var b0 := hw.bus;
    for i := 0 to 16
      invariant SameVer(hw.bus, bus0)
      invariant hw.trace == t0 + IsaPass(bus0, ios, isos, acpiPid, i)
      invariant hw.bus == Replay(b0, IsaPass(bus0, ios, isos, acpiPid, i))
    {
      if i != 2 {
        ProgramLine(hw, reg, i, acpiPid, bus0);
        AppendAssoc(t0, IsaPass(bus0, ios, isos, acpiPid, i), IsaLineTrace(bus0, ios, isos, acpiPid, i));
        ReplayAppend(b0, IsaPass(bus0, ios, isos, acpiPid, i), IsaLineTrace(bus0, ios, isos, acpiPid, i));
      }
    }
  }

  // ---------------------------------------------------------------------
  // The whole initialisation (lines 89-158)

  /** The accesses `ioapic_initialize` makes once the registries hold `ios` and `isos`. */
  function InitTrace(bus: Bus, ios: seq<Option<IoApicRecord>>, isos: seq<Option<IsoRecord>>, pid: bv8): seq<Access>
    requires Routable(bus, ios, isos)
  {
    MaskPass(bus, ios, 256) + IsaPass(bus, ios, isos, pid, 16)
  }

  /**
   * `ioapic_initialize`: nothing for a null MADT; otherwise the registries
   * become the scan of the MADT's records, and the controllers receive the
   * masking pass and then the ISA pass. The walk must end (no zero-length
   * record) and every ISA IRQ but 2 must be routable.
   */
  method Initialize(hw: Mmio, reg: Registry, mem: Memory, madt: nat, acpiPid: bv8)
    requires reg.Valid()
    requires madt != 0 ==> Terminates(mem, madt, madt + MADT_RECORDS)
    requires madt != 0 ==> Routable(hw.bus,
      ScanIoApics(mem, Walk(mem, madt, madt + MADT_RECORDS), reg.ioapics[..]),
      ScanIsos(mem, Walk(mem, madt, madt + MADT_RECORDS), reg.isos[..]))
    modifies hw, reg.ioapics, reg.isos
    ensures madt == 0 ==> && hw.trace == old(hw.trace) && hw.bus == old(hw.bus)
                          && reg.ioapics[..] == old(reg.ioapics[..]) && reg.isos[..] == old(reg.isos[..])
    ensures madt != 0 ==>
      && reg.ioapics[..] == ScanIoApics(mem, Walk(mem, madt, madt + MADT_RECORDS), old(reg.ioapics[..]))
      && reg.isos[..] == ScanIsos(mem, Walk(mem, madt, madt + MADT_RECORDS), old(reg.isos[..]))
      && Routable(old(hw.bus), reg.ioapics[..], reg.isos[..])
      && hw.trace == old(hw.trace) + InitTrace(old(hw.bus), reg.ioapics[..], reg.isos[..], acpiPid)
      && hw.bus == Replay(old(hw.bus), InitTrace(old(hw.bus), reg.ioapics[..], reg.isos[..], acpiPid))
  {
    if madt == 0 {
      return;
    }
    ghost var bus0 := hw.bus;
    Scan(reg, mem, madt);
    ghost var t1 := hw.trace;
    MaskAll(hw, reg, bus0);
    ghost var b2 := hw.bus;
    ProgramIsa(hw, reg, acpiPid, bus0);
    ghost var mask := MaskPass(bus0, reg.ioapics[..], 256);
    ghost var isa := IsaPass(bus0, reg.ioapics[..], reg.isos[..], acpiPid, 16);
    AppendAssoc(old(hw.trace), mask, isa);
    ReplayAppend(bus0, mask, isa);
  }
}
