/**
 * What `ioapic_initialize` leaves in the controllers' redirection tables:
 * every line of every registered controller masked, then each ISA IRQ's
 * line holding that IRQ's entry, the last write to a line winning.
 */
module IoApicOutcome {
  import opened Wrappers
  import opened Bytes
  import opened Madt
  import opened IoApicRegs
  import opened IoApic
  import opened IoApicInit

  /** Both halves of entry `j` of the controller at `base` hold the words of `e`. */
  predicate Holds(bus: Bus, base: nat, j: byte, e: RedirectionEntry) {
    && Reg(bus, base, RedEntryLower(j)) == Lower(EncodeEntry(e))
    && Reg(bus, base, RedEntryHigher(j)) == Higher(EncodeEntry(e))
  }

  /** Entry `j` of a non-null controller whose halves hold `e` reads back as `e`. */
  lemma HoldsEntry(bus: Bus, base: nat, j: byte, e: RedirectionEntry)
    requires base != 0 && Holds(bus, base, j, e)
    ensures EntryAt(bus, base, j) == e
  {
    SplitJoin(EncodeEntry(e));
    EntryRoundTrip(e);
  }

  /** The word a masking write leaves in inner register `r`: the mask bit in a low half, zero in a high half. */
  function MaskedHalf(r: nat): bv32 {
    if r % 2 == 0 then 0x1_0000 else 0
  }

  /** Masking lines 0 .. n-1 of `base` sets exactly the registers 0x10 .. 0x10+2n-1 of `base`. */
  lemma {:induction false} MaskLinesEffect(bus: Bus, base: nat, n: nat, b: nat, r: u32)
    requires n <= 256
    ensures Reg(Replay(bus, MaskLines(base, n)), b, r)
      == if base != 0 && b == base && RedEntryLower(0) <= r < RedEntryLower(n) then MaskedHalf(r) else Reg(bus, b, r)
    decreases n
  {
    if n > 0 {
      var head := MaskLines(base, n - 1);
      MaskLinesEffect(bus, base, n - 1, b, r);
      ReplayAppend(bus, head, WriteEntryTrace(base, (n - 1) as byte, MASKED_ENTRY));
      WriteEntryEffect(Replay(bus, head), base, (n - 1) as byte, MASKED_ENTRY, b, r);
      MaskedEntryWord();
      assert MaskedHalf(RedEntryLower(n - 1)) == 0x1_0000 && MaskedHalf(RedEntryHigher(n - 1)) == 0;
      assert RedEntryLower(n) == RedEntryHigher(n - 1) + 1 && RedEntryLower(n - 1) + 1 == RedEntryHigher(n - 1);
    }
  }

  /**
   * Masking lines 0 .. n-1 of a non-null controller is exactly n entry
   * writes, line j in the j-th block of four accesses: select the low half,
   * write the mask bit alone, select the high half, write zero. A null base
   * makes no access at all.
   */
  lemma {:induction false} MaskLinesShape(base: nat, n: nat)
    requires n <= 256
    ensures base == 0 ==> MaskLines(base, n) == []
    ensures base != 0 ==> |MaskLines(base, n)| == 4 * n
    ensures base != 0 ==> forall j :: 0 <= j < n ==>
      && MaskLines(base, n)[4 * j] == Select(base, RedEntryLower(j))
      && MaskLines(base, n)[4 * j + 1] == Write(base, 0x1_0000)
      && MaskLines(base, n)[4 * j + 2] == Select(base, RedEntryHigher(j))
      && MaskLines(base, n)[4 * j + 3] == Write(base, 0)
  {
    if n > 0 {
      MaskLinesShape(base, n - 1);
      MaskedEntryWord();
      if base != 0 {
        var head := MaskLines(base, n - 1);
        var w := WriteEntryTrace(base, (n - 1) as byte, MASKED_ENTRY);
        assert w == [Select(base, RedEntryLower(n - 1)), Write(base, 0x1_0000),
                     Select(base, RedEntryHigher(n - 1)), Write(base, 0)];
        assert MaskLines(base, n) == head + w;
        forall j | 0 <= j < n
          ensures && MaskLines(base, n)[4 * j] == Select(base, RedEntryLower(j))
                  && MaskLines(base, n)[4 * j + 1] == Write(base, 0x1_0000)
                  && MaskLines(base, n)[4 * j + 2] == Select(base, RedEntryHigher(j))
                  && MaskLines(base, n)[4 * j + 3] == Write(base, 0)
        {
          if j < n - 1 {
            assert 4 * j + 3 < |head|;
          } else {
            assert 4 * j == |head|;
          }
        }
      }
    }
  }

  /** A version read changes no register. */
  lemma VerReadKeepsRegs(bus: Bus, bus0: Bus, base: nat, b: nat, r: u32)
    ensures Reg(Replay(bus, VerReadTrace(bus0, base)), b, r) == Reg(bus, b, r)
  {
    ReadTraceEffect(bus, base, IOAPIC_VER, RegValue(bus0, base, IOAPIC_VER), b, r);
  }

  /** The routing loop's version reads change no register. */
  lemma {:induction false} VerReadsKeepRegs(bus: Bus, bus0: Bus, ios: seq<Option<IoApicRecord>>, to: nat, b: nat, r: u32)
    requires to <= |ios|
    ensures Reg(Replay(bus, VerReads(bus0, ios, to)), b, r) == Reg(bus, b, r)
  {
    if to > 0 {
      var head := VerReads(bus0, ios, to - 1);
      VerReadsKeepRegs(bus, bus0, ios, to - 1, b, r);
      if ios[to - 1].Some? {
        var base := ios[to - 1].value.ioapicAddress;
        ReplayAppend(bus, head, VerReadTrace(bus0, base));
        VerReadKeepsRegs(Replay(bus, head), bus0, base, b, r);
      }
    }
  }

  /** One controller's masking (lines 111-114) masks its lines 0 .. max and changes nothing else. */
  lemma ControllerMaskEffect(bus: Bus, bus0: Bus, base: nat, b: nat, r: u32)
    ensures Reg(Replay(bus, ControllerMaskTrace(bus0, base)), b, r)
      == if base != 0 && b == base && RedEntryLower(0) <= r < RedEntryLower(MaxEntry(bus0, base) + 1)
         then MaskedHalf(r) else Reg(bus, b, r)
  {
    var ver := VerReadTrace(bus0, base);
    ReplayAppend(bus, ver, MaskLines(base, MaxEntry(bus0, base) + 1));
    VerReadKeepsRegs(bus, bus0, base, b, r);
    MaskLinesEffect(Replay(bus, ver), base, MaxEntry(bus0, base) + 1, b, r);
  }

  /** One controller's masking leaves a masked line of any controller masked. */
  lemma ControllerMaskKeepsMasked(bus: Bus, bus0: Bus, base: nat, addr: nat, j: byte)
    requires Holds(bus, addr, j, MASKED_ENTRY)
    ensures Holds(Replay(bus, ControllerMaskTrace(bus0, base)), addr, j, MASKED_ENTRY)
  {
    MaskedEntryWord();
    assert MaskedHalf(RedEntryLower(j)) == 0x1_0000 && MaskedHalf(RedEntryHigher(j)) == 0;
    ControllerMaskEffect(bus, bus0, base, addr, RedEntryLower(j));
    ControllerMaskEffect(bus, bus0, base, addr, RedEntryHigher(j));
  }

  /** One controller's masking leaves each of its lines 0 .. max masked. */
  lemma ControllerMaskMasksOwn(bus: Bus, bus0: Bus, base: nat, j: byte)
    requires base != 0 && j as nat <= MaxEntry(bus0, base)
    ensures Holds(Replay(bus, ControllerMaskTrace(bus0, base)), base, j, MASKED_ENTRY)
  {
    MaskedEntryWord();
    assert RedEntryLower(j) % 2 == 0 && RedEntryHigher(j) % 2 == 1;
    ControllerMaskEffect(bus, bus0, base, base, RedEntryLower(j));
    ControllerMaskEffect(bus, bus0, base, base, RedEntryHigher(j));
  }

  /**
   * After the masking pass over slots 0 .. i-1, every line 0 .. max of every
   * registered controller among them holds the masked entry, whatever order
   * the controllers came in and whether or not their addresses coincide.
   */
  lemma {:induction false} MaskPassMasks(bus: Bus, bus0: Bus, ios: seq<Option<IoApicRecord>>, i: nat, k: nat, j: byte)
    requires i <= |ios| && k < i && ios[k].Some? && ios[k].value.ioapicAddress != 0
    requires j as nat <= MaxEntry(bus0, ios[k].value.ioapicAddress)
    ensures Holds(Replay(bus, MaskPass(bus0, ios, i)), ios[k].value.ioapicAddress, j, MASKED_ENTRY)
  {
    var addr := ios[k].value.ioapicAddress;
    var head := MaskPass(bus0, ios, i - 1);
    if k < i - 1 {
      MaskPassMasks(bus, bus0, ios, i - 1, k, j);
      if ios[i - 1].Some? {
        var base := ios[i - 1].value.ioapicAddress;
        ReplayAppend(bus, head, ControllerMaskTrace(bus0, base));
        ControllerMaskKeepsMasked(Replay(bus, head), bus0, base, addr, j);
      }
    } else {
      ReplayAppend(bus, head, ControllerMaskTrace(bus0, addr));
      ControllerMaskMasksOwn(Replay(bus, head), bus0, addr, j);
    }
  }

  /** The controller address and line ISA IRQ `i` is written to. */
  function LineTarget(bus: Bus, ios: seq<Option<IoApicRecord>>, isos: seq<Option<IsoRecord>>, i: nat): (nat, byte)
    requires Routable(bus, ios, isos) && i < 16 && i != 2
  {
    (ios[LineController(bus, ios, isos, i)].value.ioapicAddress, LinePin(bus, ios, isos, i))
  }

  /** One ISA IRQ's accesses (lines 121-156) store its entry in its target line and change no other register. */
  lemma IsaLineEffect(bus: Bus, bus0: Bus, ios: seq<Option<IoApicRecord>>, isos: seq<Option<IsoRecord>>,
                      pid: bv8, i: nat, b: nat, r: u32)
    requires Routable(bus0, ios, isos) && i < 16 && i != 2
    ensures var t := LineTarget(bus0, ios, isos, i);
      var word := EncodeEntry(IsaEntry(pid, isos[i]));
      Reg(Replay(bus, IsaLineTrace(bus0, ios, isos, pid, i)), b, r)
        == if t.0 != 0 && b == t.0 && r == RedEntryLower(t.1) then Lower(word)
           else if t.0 != 0 && b == t.0 && r == RedEntryHigher(t.1) then Higher(word)
           else Reg(bus, b, r)
  {
    var k := LineController(bus0, ios, isos, i);
    var probes := VerReads(bus0, ios, k + 1);
    var t := LineTarget(bus0, ios, isos, i);
    ReplayAppend(bus, probes, WriteEntryTrace(t.0, t.1, IsaEntry(pid, isos[i])));
    VerReadsKeepRegs(bus, bus0, ios, k + 1, b, r);
    WriteEntryEffect(Replay(bus, probes), t.0, t.1, IsaEntry(pid, isos[i]), b, r);
  }

  /** Both halves of entry `j` of `base` are the same in `bus` and `bus'`. */
  predicate SameLine(bus: Bus, bus': Bus, base: nat, j: byte) {
    && Reg(bus, base, RedEntryLower(j)) == Reg(bus', base, RedEntryLower(j))
    && Reg(bus, base, RedEntryHigher(j)) == Reg(bus', base, RedEntryHigher(j))
  }

  /** One ISA IRQ's accesses leave its (non-null) target line holding its entry. */
  lemma IsaLineWrites(bus: Bus, bus0: Bus, ios: seq<Option<IoApicRecord>>, isos: seq<Option<IsoRecord>>, pid: bv8, i: nat)
    requires Routable(bus0, ios, isos) && i < 16 && i != 2
    requires LineTarget(bus0, ios, isos, i).0 != 0
    ensures var t := LineTarget(bus0, ios, isos, i);
      Holds(Replay(bus, IsaLineTrace(bus0, ios, isos, pid, i)), t.0, t.1, IsaEntry(pid, isos[i]))
  {
    var t := LineTarget(bus0, ios, isos, i);
    RedEntryIndices(t.1 as nat, t.1 as nat);
    IsaLineEffect(bus, bus0, ios, isos, pid, i, t.0, RedEntryLower(t.1));
    IsaLineEffect(bus, bus0, ios, isos, pid, i, t.0, RedEntryHigher(t.1));
  }

  /** One ISA IRQ's accesses leave every line other than its target as it was. */
  lemma IsaLineFrame(bus: Bus, bus0: Bus, ios: seq<Option<IoApicRecord>>, isos: seq<Option<IsoRecord>>,
                     pid: bv8, i: nat, base: nat, j: byte)
    requires Routable(bus0, ios, isos) && i < 16 && i != 2
    requires LineTarget(bus0, ios, isos, i) != (base, j)
    ensures SameLine(Replay(bus, IsaLineTrace(bus0, ios, isos, pid, i)), bus, base, j)
  {
    var t := LineTarget(bus0, ios, isos, i);
    RedEntryIndices(j as nat, t.1 as nat);
    RedEntryIndices(t.1 as nat, j as nat);
    IsaLineEffect(bus, bus0, ios, isos, pid, i, base, RedEntryLower(j));
    IsaLineEffect(bus, bus0, ios, isos, pid, i, base, RedEntryHigher(j));
  }

  /** ISA IRQ n-1 leaves a line it does not target as it was. */
  lemma IsaPassStepSame(bus: Bus, bus0: Bus, ios: seq<Option<IoApicRecord>>, isos: seq<Option<IsoRecord>>,
                        pid: bv8, n: nat, base: nat, j: byte)
    requires Routable(bus0, ios, isos) && 0 < n <= 16
    requires n - 1 != 2 ==> LineTarget(bus0, ios, isos, n - 1) != (base, j)
    ensures SameLine(Replay(bus, IsaPass(bus0, ios, isos, pid, n)), Replay(bus, IsaPass(bus0, ios, isos, pid, n - 1)), base, j)
  {
    if n - 1 != 2 {
      var head := IsaPass(bus0, ios, isos, pid, n - 1);
      ReplayAppend(bus, head, IsaLineTrace(bus0, ios, isos, pid, n - 1));
      IsaLineFrame(Replay(bus, head), bus0, ios, isos, pid, n - 1, base, j);
    }
  }

  /** A line none of the ISA IRQs `from` .. n-1 targets is the same after them as before them. */
  lemma {:induction false} IsaPassSuffixKeeps(bus: Bus, bus0: Bus, ios: seq<Option<IoApicRecord>>, isos: seq<Option<IsoRecord>>,
                                                pid: bv8, from: nat, n: nat, base: nat, j: byte)
    requires Routable(bus0, ios, isos) && from <= n <= 16
    requires forall k :: from <= k < n && k != 2 ==> LineTarget(bus0, ios, isos, k) != (base, j)
    ensures SameLine(Replay(bus, IsaPass(bus0, ios, isos, pid, n)), Replay(bus, IsaPass(bus0, ios, isos, pid, from)), base, j)
    decreases n
  {
    if from < n {
      IsaPassSuffixKeeps(bus, bus0, ios, isos, pid, from, n - 1, base, j);
      IsaPassStepSame(bus, bus0, ios, isos, pid, n, base, j);
    }
  }

  /**
   * A line no ISA IRQ among 0 .. n-1 targets keeps both its halves through
   * the ISA pass.
   */
  lemma IsaPassUntouched(bus: Bus, bus0: Bus, ios: seq<Option<IoApicRecord>>, isos: seq<Option<IsoRecord>>,
                         pid: bv8, n: nat, base: nat, j: byte)
    requires Routable(bus0, ios, isos) && n <= 16
    requires forall i :: 0 <= i < n && i != 2 ==> LineTarget(bus0, ios, isos, i) != (base, j)
    ensures SameLine(Replay(bus, IsaPass(bus0, ios, isos, pid, n)), bus, base, j)
  {
    IsaPassSuffixKeeps(bus, bus0, ios, isos, pid, 0, n, base, j);
    assert IsaPass(bus0, ios, isos, pid, 0) == [];
  }

  /** ISA IRQ `i`'s own accesses, appended to the pass over 0 .. i-1, leave its line holding its entry. */
  lemma IsaPassStepWrites(bus: Bus, bus0: Bus, ios: seq<Option<IoApicRecord>>, isos: seq<Option<IsoRecord>>, pid: bv8, i: nat)
    requires Routable(bus0, ios, isos) && i < 16 && i != 2
    requires LineTarget(bus0, ios, isos, i).0 != 0
    ensures var t := LineTarget(bus0, ios, isos, i);
      Holds(Replay(bus, IsaPass(bus0, ios, isos, pid, i + 1)), t.0, t.1, IsaEntry(pid, isos[i]))
  {
    var head := IsaPass(bus0, ios, isos, pid, i);
    ReplayAppend(bus, head, IsaLineTrace(bus0, ios, isos, pid, i));
    IsaLineWrites(Replay(bus, head), bus0, ios, isos, pid, i);
  }

  /**
   * The line of ISA IRQ `i` holds that IRQ's entry after the ISA pass over
   * 0 .. n-1, unless a later IRQ among them is written to the same line.
   */
  lemma IsaPassLastWins(bus: Bus, bus0: Bus, ios: seq<Option<IoApicRecord>>, isos: seq<Option<IsoRecord>>,
                         pid: bv8, n: nat, i: nat)
    requires Routable(bus0, ios, isos) && i < n <= 16 && i != 2
    requires LineTarget(bus0, ios, isos, i).0 != 0
    requires forall j :: i < j < n && j != 2 ==> LineTarget(bus0, ios, isos, j) != LineTarget(bus0, ios, isos, i)
    ensures var t := LineTarget(bus0, ios, isos, i);
      Holds(Replay(bus, IsaPass(bus0, ios, isos, pid, n)), t.0, t.1, IsaEntry(pid, isos[i]))
  {
    var t := LineTarget(bus0, ios, isos, i);
    IsaPassStepWrites(bus, bus0, ios, isos, pid, i);
    IsaPassSuffixKeeps(bus, bus0, ios, isos, pid, i + 1, n, t.0, t.1);
  }

  /**
   * After `ioapic_initialize`'s accesses, ISA IRQ `i` (not 2) reads back on
   * its line as its programmed entry, unless a later ISA IRQ shares the line.
   */
  lemma InitProgramsIsa(bus: Bus, ios: seq<Option<IoApicRecord>>, isos: seq<Option<IsoRecord>>, pid: bv8, i: nat)
    requires Routable(bus, ios, isos) && i < 16 && i != 2
    requires LineTarget(bus, ios, isos, i).0 != 0
    requires forall j :: i < j < 16 && j != 2 ==> LineTarget(bus, ios, isos, j) != LineTarget(bus, ios, isos, i)
    ensures var t := LineTarget(bus, ios, isos, i);
      EntryAt(Replay(bus, InitTrace(bus, ios, isos, pid)), t.0, t.1) == IsaEntry(pid, isos[i])
  {
    var t := LineTarget(bus, ios, isos, i);
    var mask := MaskPass(bus, ios, 256);
    ReplayAppend(bus, mask, IsaPass(bus, ios, isos, pid, 16));
    IsaPassLastWins(Replay(bus, mask), bus, ios, isos, pid, 16, i);
    HoldsEntry(Replay(bus, InitTrace(bus, ios, isos, pid)), t.0, t.1, IsaEntry(pid, isos[i]));
  }

  /**
   * After `ioapic_initialize`'s accesses, every line 0 .. max of every
   * registered (non-null) controller that no ISA IRQ targets reads back as
   * the masked entry.
   */
  lemma InitMasksUntargeted(bus: Bus, ios: seq<Option<IoApicRecord>>, isos: seq<Option<IsoRecord>>, pid: bv8, k: nat, j: byte)
    requires Routable(bus, ios, isos) && k < 256 && ios[k].Some? && ios[k].value.ioapicAddress != 0
    requires j as nat <= MaxEntry(bus, ios[k].value.ioapicAddress)
    requires forall i :: 0 <= i < 16 && i != 2 ==> LineTarget(bus, ios, isos, i) != (ios[k].value.ioapicAddress, j)
    ensures EntryAt(Replay(bus, InitTrace(bus, ios, isos, pid)), ios[k].value.ioapicAddress, j) == MASKED_ENTRY
  {
    var addr := ios[k].value.ioapicAddress;
    var mask := MaskPass(bus, ios, 256);
    ReplayAppend(bus, mask, IsaPass(bus, ios, isos, pid, 16));
    MaskPassMasks(bus, bus, ios, 256, k, j);
    IsaPassUntouched(Replay(bus, mask), bus, ios, isos, pid, 16, addr, j);
    assert Holds(Replay(bus, InitTrace(bus, ios, isos, pid)), addr, j, MASKED_ENTRY);
    HoldsEntry(Replay(bus, InitTrace(bus, ios, isos, pid)), addr, j, MASKED_ENTRY);
  }
}
