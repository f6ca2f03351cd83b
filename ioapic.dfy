/**
 * The I/O APIC accessors: every inner register is reached through the
 * select-then-access window (write the index to IOREGSEL, then store to or
 * load from IOWIN). The memory-mapped window is modelled as an ideal register
 * file per controller base address, plus the ordered trace of window accesses
 * the program made.
 */
module IoApic {
  import opened Bytes
  import opened IoApicRegs

  /** One access to the window of the controller at `base`. */
  datatype Access =
    | Select(base: nat, reg: u32)   // store `reg` to IOREGSEL
    | Write(base: nat, value: bv32) // store `value` to IOWIN
    | Read(base: nat, value: bv32)  // load `value` from IOWIN

  /** The controllers' state: each base's inner registers and its IOREGSEL. */
  datatype Bus = Bus(files: map<nat, map<u32, bv32>>, selected: map<nat, u32>)

  /** Inner register `reg` of the controller at `base`; a register never written holds 0. */
  function Reg(bus: Bus, base: nat, reg: u32): bv32 {
    if base in bus.files && reg in bus.files[base] then bus.files[base][reg] else 0
  }

  /** The index last stored to IOREGSEL of the controller at `base`. */
  function Selected(bus: Bus, base: nat): u32 {
    if base in bus.selected then bus.selected[base] else 0
  }

  /** The effect of one access: select an index, store through the window, or load (no effect). */
  function Step(bus: Bus, a: Access): Bus {
    match a
    case Select(base, reg) => bus.(selected := bus.selected[base := reg])
    case Write(base, value) =>
      var file := if base in bus.files then bus.files[base] else map[];
      bus.(files := bus.files[base := file[Selected(bus, base) := value]])
    case Read(_, _) => bus
  }

  /** The state after a sequence of accesses, in order. */
  function Replay(bus: Bus, trace: seq<Access>): Bus
    decreases |trace|
  {
    if trace == [] then bus
    else Step(Replay(bus, trace[..|trace| - 1]), trace[|trace| - 1])
  }

  /** Concatenation of traces is associative. */
  lemma AppendAssoc(a: seq<Access>, b: seq<Access>, c: seq<Access>)
    ensures (a + b) + c == a + (b + c)
  {
  }

  /** Replaying a trace in two parts is replaying it at once. */
  lemma {:induction false} ReplayAppend(bus: Bus, a: seq<Access>, b: seq<Access>)
    ensures Replay(bus, a + b) == Replay(Replay(bus, a), b)
    decreases |b|
  {
    if b == [] {
      assert a + b == a;
    } else {
      var b' := b[..|b| - 1];
      assert (a + b)[..|a + b| - 1] == a + b';
      ReplayAppend(bus, a, b');
    }
  }

  /** Replaying one more access is one more step. */
  lemma ReplaySnoc(bus: Bus, t: seq<Access>, a: Access)
    ensures Replay(bus, t + [a]) == Step(Replay(bus, t), a)
  {
    assert (t + [a])[..|t|] == t;
  }

  /** Replaying two accesses is two steps. */
  lemma ReplayPair(bus: Bus, a: Access, b: Access)
    ensures Replay(bus, [a, b]) == Step(Step(bus, a), b)
  {
    assert Replay(bus, [a]) == Step(bus, a) by {
      assert [a][..0] == [];
    }
    assert [a, b][..1] == [a];
  }

  /** The memory-mapped windows: the register files behind them and the trace of accesses made so far. */
  class Mmio {
    var bus: Bus
    var trace: seq<Access>

    constructor(bus0: Bus)
      ensures bus == bus0 && trace == []
    {
      bus := bus0;
      trace := [];
    }

    /** `self[IOAPIC_REGSEL] = reg`. */
    method SelectRegister(base: nat, reg: u32)
      modifies this
      ensures trace == old(trace) + [Select(base, reg)]
      ensures bus == Step(old(bus), Select(base, reg))
    {
      trace := trace + [Select(base, reg)];
      bus := Step(bus, Select(base, reg));
    }

    /** `self[IOAPIC_REGWIN] = value`. */
    method WriteWindow(base: nat, value: bv32)
      modifies this
      ensures trace == old(trace) + [Write(base, value)]
      ensures bus == Step(old(bus), Write(base, value))
    {
      trace := trace + [Write(base, value)];
      bus := Step(bus, Write(base, value));
    }

    /** A load of `self[IOAPIC_REGWIN]`: the selected inner register. */
    method ReadWindow(base: nat) returns (value: bv32)
      modifies this
      ensures value == Reg(old(bus), base, Selected(old(bus), base))
      ensures trace == old(trace) + [Read(base, value)]
      ensures bus == old(bus) == Step(old(bus), Read(base, value))
    {
      value := Reg(bus, base, Selected(bus, base));
      trace := trace + [Read(base, value)];
    }
  }

  /** The accesses `ioapic_write` makes: none for a null base. */
  function WriteTrace(base: nat, reg: u32, value: bv32): seq<Access> {
    if base == 0 then [] else [Select(base, reg), Write(base, value)]
  }

  /** The accesses `ioapic_read` makes when it loads `value`: none for a null base. */
  function ReadTrace(base: nat, reg: u32, value: bv32): seq<Access> {
    if base == 0 then [] else [Select(base, reg), Read(base, value)]
  }

  /** The byte address an access stores to or loads from: IOREGSEL for a select, IOWIN otherwise. */
  function AccessAddress(a: Access): nat {
    match a
    case Select(base, _) => base + WindowByteOffset(IOAPIC_REGSEL)
    case Write(base, _) => base + WindowByteOffset(IOAPIC_REGWIN)
    case Read(base, _) => base + WindowByteOffset(IOAPIC_REGWIN)
  }

  /**
   * A read or a write of a non-null controller first stores to the word at
   * its base address and then stores to or loads from the word 16 bytes
   * above it; the two words do not overlap.
   */
  lemma WindowAddresses(base: nat, reg: u32, value: bv32)
    ensures base != 0 ==>
      var w := WriteTrace(base, reg, value);
      && |w| == 2 && w[0].Select? && w[1].Write?
      && AccessAddress(w[0]) == base && AccessAddress(w[1]) == base + 0x10
    ensures base != 0 ==>
      var r := ReadTrace(base, reg, value);
      && |r| == 2 && r[0].Select? && r[1].Read?
      && AccessAddress(r[0]) == base && AccessAddress(r[1]) == base + 0x10
    ensures base != 0 ==> AccessAddress(Select(base, reg)) + 4 <= AccessAddress(Write(base, value))
  {
    WindowLayout();
  }

  /** The value `ioapic_read` returns: 0 for a null base. */
  function RegValue(bus: Bus, base: nat, reg: u32): bv32 {
    if base == 0 then 0 else Reg(bus, base, reg)
  }

  /**
   * A write stores `value` in exactly one register, `reg` of `base`, leaves
   * that window selecting `reg`, and changes nothing else; a null base
   * changes nothing at all.
   */
  lemma WriteTraceEffect(bus: Bus, base: nat, reg: u32, value: bv32, b: nat, r: u32)
    ensures var after := Replay(bus, WriteTrace(base, reg, value));
      && Reg(after, b, r) == (if base != 0 && b == base && r == reg then value else Reg(bus, b, r))
      && Selected(after, b) == (if base != 0 && b == base then reg else Selected(bus, b))
  {
    if base != 0 {
      ReplayPair(bus, Select(base, reg), Write(base, value));
    }
  }

  /** A read changes no register; it only leaves the window selecting `reg`. */
  lemma ReadTraceEffect(bus: Bus, base: nat, reg: u32, value: bv32, b: nat, r: u32)
    ensures var after := Replay(bus, ReadTrace(base, reg, value));
      && Reg(after, b, r) == Reg(bus, b, r)
      && Selected(after, b) == (if base != 0 && b == base then reg else Selected(bus, b))
  {
    if base != 0 {
      ReplayPair(bus, Select(base, reg), Read(base, value));
    }
  }

  /** `ioapic_write`: nothing for a null base, else select `reg` and store `value`. */
  method IoApicWrite(hw: Mmio, self: nat, reg: u32, value: bv32)
    modifies hw
    ensures hw.trace == old(hw.trace) + WriteTrace(self, reg, value)
    ensures hw.bus == Replay(old(hw.bus), WriteTrace(self, reg, value))
  {
    if self == 0 {
      return;
    }
    ReplayPair(hw.bus, Select(self, reg), Write(self, value));
    hw.SelectRegister(self, reg);
    hw.WriteWindow(self, value);
  }

  /** `ioapic_read`: 0 for a null base, else select `reg` and load it. */
  method IoApicRead(hw: Mmio, self: nat, reg: u32) returns (value: bv32)
    modifies hw
    ensures value == RegValue(old(hw.bus), self, reg)
    ensures hw.trace == old(hw.trace) + ReadTrace(self, reg, value)
    ensures hw.bus == Replay(old(hw.bus), ReadTrace(self, reg, value))
  {
    if self == 0 {
      return 0;
    }
    ghost var bus0 := hw.bus;
    hw.SelectRegister(self, reg);
    value := hw.ReadWindow(self);
    ReplayPair(bus0, Select(self, reg), Read(self, value));
  }

  /** The decoded ID register; all fields zero for a null base. */
  function IdOf(bus: Bus, base: nat): IdRegister {
    DecodeId(RegValue(bus, base, IOAPIC_ID))
  }

  /** The decoded version register; all fields zero for a null base. */
  function VerOf(bus: Bus, base: nat): VerRegister {
    DecodeVer(RegValue(bus, base, IOAPIC_VER))
  }

  /** The decoded arbitration register; all fields zero for a null base. */
  function ArbOf(bus: Bus, base: nat): ArbRegister {
    DecodeArb(RegValue(bus, base, IOAPIC_ARB))
  }

  /** The highest redirection entry index of the controller at `base`; 0 for a null base. */
  function MaxEntry(bus: Bus, base: nat): (max: nat)
    ensures max <= 255
    ensures base == 0 ==> max == 0
  {
    VerOf(bus, base).maxRedirectionEntry as nat
  }

  /** The highest entry index is bits 16-23 of the raw version register. */
  lemma MaxEntryBits(bus: Bus, base: nat)
    ensures MaxEntry(bus, base) == ((RegValue(bus, base, IOAPIC_VER) >> 16) & 0xFF) as nat
  {
  }

  /** A null base reads as the all-zero register values and makes no access. */
  lemma NullBaseReadsZero(bus: Bus)
    ensures IdOf(bus, 0) == IdRegister(0, 0, 0)
    ensures VerOf(bus, 0) == VerRegister(0, 0, 0, 0)
    ensures ArbOf(bus, 0) == ArbRegister(0, 0, 0)
    ensures forall reg: u32 :: RegValue(bus, 0, reg) == 0
    ensures forall reg: u32, value: bv32 :: ReadTrace(0, reg, value) == [] && WriteTrace(0, reg, value) == []
  {
  }

  /** `ioapic_read_id`: the decode of inner register IOAPIC_ID, or all zeros without an access for a null base. */
  method IoApicReadId(hw: Mmio, self: nat) returns (id: IdRegister)
    modifies hw
    ensures id == IdOf(old(hw.bus), self)
    ensures hw.trace == old(hw.trace) + ReadTrace(self, IOAPIC_ID, RegValue(old(hw.bus), self, IOAPIC_ID))
    ensures hw.bus == Replay(old(hw.bus), ReadTrace(self, IOAPIC_ID, RegValue(old(hw.bus), self, IOAPIC_ID)))
  {
    id := IdRegister(0, 0, 0);
    if self != 0 {
      var raw := IoApicRead(hw, self, IOAPIC_ID);
      id := DecodeId(raw);
    }
  }

  /** `ioapic_read_ver`: the decode of inner register IOAPIC_VER, or all zeros without an access for a null base. */
  method IoApicReadVer(hw: Mmio, self: nat) returns (ver: VerRegister)
    modifies hw
    ensures ver == VerOf(old(hw.bus), self)
    ensures hw.trace == old(hw.trace) + ReadTrace(self, IOAPIC_VER, RegValue(old(hw.bus), self, IOAPIC_VER))
    ensures hw.bus == Replay(old(hw.bus), ReadTrace(self, IOAPIC_VER, RegValue(old(hw.bus), self, IOAPIC_VER)))
  {
    ver := VerRegister(0, 0, 0, 0);
    if self != 0 {
      var raw := IoApicRead(hw, self, IOAPIC_VER);
      ver := DecodeVer(raw);
    }
  }

  /** `ioapic_read_arb`: the decode of inner register IOAPIC_ARB, or all zeros without an access for a null base. */
  method IoApicReadArb(hw: Mmio, self: nat) returns (arb: ArbRegister)
    modifies hw
    ensures arb == ArbOf(old(hw.bus), self)
    ensures hw.trace == old(hw.trace) + ReadTrace(self, IOAPIC_ARB, RegValue(old(hw.bus), self, IOAPIC_ARB))
    ensures hw.bus == Replay(old(hw.bus), ReadTrace(self, IOAPIC_ARB, RegValue(old(hw.bus), self, IOAPIC_ARB)))
  {
    arb := ArbRegister(0, 0, 0);
    if self != 0 {
      var raw := IoApicRead(hw, self, IOAPIC_ARB);
      arb := DecodeArb(raw);
    }
  }

  /** The accesses `ioapic_write_redirection_entry` makes: the low half to 0x10+2n, then the high half to 0x11+2n. */
  function WriteEntryTrace(base: nat, n: byte, e: RedirectionEntry): seq<Access> {
    WriteTrace(base, RedEntryLower(n), Lower(EncodeEntry(e)))
      + WriteTrace(base, RedEntryHigher(n), Higher(EncodeEntry(e)))
  }

  /** The accesses `ioapic_read_redirection_entry` makes on `bus`: the same two indices in the same order. */
  function ReadEntryTrace(bus: Bus, base: nat, n: byte): seq<Access> {
    ReadTrace(base, RedEntryLower(n), RegValue(bus, base, RedEntryLower(n)))
      + ReadTrace(base, RedEntryHigher(n), RegValue(bus, base, RedEntryHigher(n)))
  }

  /** Redirection entry `n` of the controller at `base`, as its two halves decode; all zeros for a null base. */
  function EntryAt(bus: Bus, base: nat, n: byte): RedirectionEntry {
    DecodeEntry(Join(RegValue(bus, base, RedEntryLower(n)), RegValue(bus, base, RedEntryHigher(n))))
  }

  /**
   * Writing entry `n` stores its two halves in the two registers of entry
   * `n` and changes no other register.
   */
  lemma WriteEntryEffect(bus: Bus, base: nat, n: byte, e: RedirectionEntry, b: nat, r: u32)
    ensures var after := Replay(bus, WriteEntryTrace(base, n, e));
      Reg(after, b, r) ==
        if base != 0 && b == base && r == RedEntryLower(n) then Lower(EncodeEntry(e))
        else if base != 0 && b == base && r == RedEntryHigher(n) then Higher(EncodeEntry(e))
        else Reg(bus, b, r)
  {
    var lo := WriteTrace(base, RedEntryLower(n), Lower(EncodeEntry(e)));
    var hi := WriteTrace(base, RedEntryHigher(n), Higher(EncodeEntry(e)));
    ReplayAppend(bus, lo, hi);
    WriteTraceEffect(bus, base, RedEntryLower(n), Lower(EncodeEntry(e)), b, r);
    WriteTraceEffect(Replay(bus, lo), base, RedEntryHigher(n), Higher(EncodeEntry(e)), b, r);
  }

  /** On the ideal register file, writing entry `n` and then reading it back gives the entry written. */
  lemma WriteThenReadEntry(bus: Bus, base: nat, n: byte, e: RedirectionEntry)
    requires base != 0
    ensures EntryAt(Replay(bus, WriteEntryTrace(base, n, e)), base, n) == e
  {
    var after := Replay(bus, WriteEntryTrace(base, n, e));
    WriteEntryEffect(bus, base, n, e, base, RedEntryLower(n));
    WriteEntryEffect(bus, base, n, e, base, RedEntryHigher(n));
    SplitJoin(EncodeEntry(e));
    EntryRoundTrip(e);
  }

  /** `ioapic_write_redirection_entry`: nothing for a null base. */
  method IoApicWriteRedirectionEntry(hw: Mmio, self: nat, n: byte, entry: RedirectionEntry)
    modifies hw
    ensures hw.trace == old(hw.trace) + WriteEntryTrace(self, n, entry)
    ensures hw.bus == Replay(old(hw.bus), WriteEntryTrace(self, n, entry))
  {
    if self != 0 {
      ghost var bus0 := hw.bus;
      IoApicWrite(hw, self, RedEntryLower(n), Lower(EncodeEntry(entry)));
      IoApicWrite(hw, self, RedEntryHigher(n), Higher(EncodeEntry(entry)));
      ReplayAppend(bus0, WriteTrace(self, RedEntryLower(n), Lower(EncodeEntry(entry))),
        WriteTrace(self, RedEntryHigher(n), Higher(EncodeEntry(entry))));
    }
  }

  /** `ioapic_read_redirection_entry`: the all-zero entry without an access for a null base. */
  method IoApicReadRedirectionEntry(hw: Mmio, self: nat, n: byte) returns (entry: RedirectionEntry)
    modifies hw
    ensures entry == EntryAt(old(hw.bus), self, n)
    ensures hw.trace == old(hw.trace) + ReadEntryTrace(old(hw.bus), self, n)
    ensures hw.bus == Replay(old(hw.bus), ReadEntryTrace(old(hw.bus), self, n))
  {
    entry := ZERO_ENTRY;
    if self != 0 {
      ghost var bus0 := hw.bus;
      var lower := IoApicRead(hw, self, RedEntryLower(n));
      ReadTraceEffect(bus0, self, RedEntryLower(n), lower, self, RedEntryHigher(n));
      ghost var bus1 := hw.bus;
      var higher := IoApicRead(hw, self, RedEntryHigher(n));
      ReplayAppend(bus0, ReadTrace(self, RedEntryLower(n), lower), ReadTrace(self, RedEntryHigher(n), higher));
      entry := DecodeEntry(Join(lower, higher));
    }
  }
}
