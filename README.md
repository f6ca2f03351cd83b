# I/O APIC bring-up of natanjunges/kernel, modelled in Dafny

This project models the interrupt bring-up path of a small x86-64 kernel. It has three parts:

- **The ACPI table locator.** Given a revision-1 RSDP, it scans the RSDT (32-bit entries). Given a revision-2 RSDP, it scans the XSDT (64-bit entries). Either way it returns the first table whose 4-byte signature matches. This is ACPI sections 5.2.5 to 5.2.8.
- **The MADT record cursor.** `acpi_madt_nextRecord` steps from one variable-length record to the next, checked against the table's `length` (ACPI section 5.2.12).
- **The I/O APIC register interface and `ioapic_initialize`** (Intel 82093AA datasheet, section 3). Every inner register is reached by storing its index to IOREGSEL and then storing to or loading from IOWIN. `ioapic_initialize` runs in three phases:
  - it scans the MADT into the registries `ioapics[256]` (keyed by I/O APIC id) and `isos[256]` (keyed by source IRQ);
  - it masks every line of every registered controller;
  - it programs ISA IRQs 0-15, except the cascade IRQ 2, on the lowest-id controller whose GSI range covers each one's GSI.

How the model represents the system:

- **Memory.** Physical memory is a total function from addresses to bytes (`Bytes.Memory`); address 0 stands for NULL. Fields are read little-endian at their packed offsets.
- **Controllers.** They are an ideal register file per base address, plus the index last stored in each IOREGSEL (`IoApic.Bus`). The class `IoApic.Mmio` holds that state and the ordered trace of window accesses made so far: `Select(base, reg)`, `Write(base, value)` and `Read(base, value)`.
- **Accessor contracts.** Every accessor appends its exact accesses to the trace, and leaves the bus equal to the replay of those accesses (`Replay`).
- **Initialisation phases.** The phase methods are proved against reference traces: `MaskPass`, `IsaPass` and `InitTrace`. Lemmas in `IoApicOutcome` then state what those traces leave in the redirection tables.
- **Registries.** They are the two arrays of `Option` records in `IoApicInit.Registry`, updated in place by the scan.

Files, in dependency order:
- `wrappers.dfy`: `Option`.
- `bytes.dfy`: fixed-width integers, memory, LE16/32/64.
- `acpi.dfy`: RSDP, SDT header, RSDT/XSDT, the two lookups.
- `madt.dfy`: MADT prefix, record layouts, the cursor step and the walk it induces.
- `ioapic_regs.dfy`: register indices, the ID/VER/ARB layouts, the redirection-entry layout and its 32-bit halves.
- `ioapic.dfy`: the window, the register file and the accessors.
- `ioapic_init.dfy`: `ioapic_initialize` and its phases.
- `ioapic_outcome.dfy`: the resulting redirection-table contents.

Where the declarations and the code disagree, the model follows the code:
- **Function names.** `acpi.c` defines `acpi_old_rsdp_get_SDT`, but `acpi.h` declares `acpi_old_rsdp_getSDT`. `ioapic.c` calls `acpi_madt_next_record`, but `madt.c` defines `acpi_madt_nextRecord`. The model takes the `.c` definitions, and takes `ioapic.c`'s call to mean the function `madt.c` defines.
- **Override flags.** `ioapic.c` reads the override flags as bit-fields, but `madt.h` declares `interrupt_flags` as a plain `uint16_t`. The model decodes the MPS INTI layout:
  - bit 0 means the polarity is overridden, and bit 1 means active low;
  - bit 2 means the trigger mode is overridden, and bit 3 means level triggered.

  Bits 1 and 3 agree with the two masks `madt.h` defines. The bit read is stored in the entry as it is, so a set bit gives active low or level triggered.
- **Routing order.** Routing tries controllers in registry order, which is I/O APIC id order. It does not use the order in which the MADT lists them.
- **First record.** The scan visits the first record at byte 44 without checking it against the table length, exactly as the C loop does.
- **Default polarity and trigger.** `ioapic.c` initialises the entry with `ACPI_MADT_RECORD_INTERRUPT_FLAGS_PIN_POLARITY_HIGH` and `ACPI_MADT_RECORD_INTERRUPT_FLAGS_TRIGGER_MODE_EDGE`. Neither macro is defined in the headers: `acpi.h` and `madt.h` define only the `_LOW` and `_LEVEL` masks. The model takes both as 0 (`PIN_POLARITY_HIGH` and `TRIGGER_MODE_EDGE`), the value that matches their names and the 82093AA encoding. The statement that every bit of an ISA entry other than 13, 15, 16 and 56-63 is 0 depends on that choice.
- **Mask bit.** The ISA entries keep the mask bit set, because the code sets `mask = IOAPIC_REDIRECTION_ENTRY_MASK_DISABLED`, which is 1. Lines are programmed but left masked.
- **Errors.** The code has no status codes, no limit on the number of controllers and no duplicate detection. Errors are NULL returns or silent returns, and duplicates overwrite earlier entries. The model does the same.

## Model

| member | source | states |
|---|---|---|
| Acpi.EntryCountValue | src/acpi/acpi.c:24 | the scanned entry count is `(length - 36) / size` for a table at least as long as its header; a shorter length wraps, in the 64-bit subtraction and the 32-bit store, to a count of at least 2^32 - 9 |
| Acpi.FirstFromIsFirst | src/acpi/acpi.c:26-31 | the search returns the lowest index below the count that satisfies the test, no earlier index satisfying it; it returns none only when no index below the count satisfies it |
| Acpi.FirstFromUnique | src/acpi/acpi.c:26-31 | an index that satisfies the test, with no earlier index satisfying it, is exactly the one the search returns |
| Acpi.LookupNullArguments | src/acpi/acpi.c:19-21 | a NULL RSDP or a NULL signature gives NULL |
| Acpi.LookupFound | inc/acpi/acpi.h:58-74 | a non-NULL result carries the requested signature and is held by an entry within the count, before which no entry's table matches |
| Acpi.LookupFirstMatch | src/acpi/acpi.c:26-34 | if no entry within the count matches, the result is NULL; otherwise it is the address in the lowest matching entry; entries at or past the count play no part |
| Acpi.OldRsdpGetSdt | src/acpi/acpi.c:18-35 | the RSDT loop (32-bit entries at 36 + 4i, the RSDT address at RSDP byte 16) returns exactly `Lookup` for the RSDT |
| Acpi.NewRsdpGetSdt | src/acpi/acpi.c:37-54 | the XSDT loop (64-bit entries at 36 + 8i, the XSDT address at RSDP byte 24) returns exactly `Lookup` for the XSDT |
| Madt.DecodeRecord | inc/acpi/madt.h:35-78 | a record decodes as an I/O APIC record exactly when its type is 1, with id at byte 2, address at bytes 4-7 and GSI base at bytes 8-11; as an override exactly when its type is 2, with bus at 2, IRQ at 3, GSI at 4-7 and flags at 8-9; and as unknown exactly when its type is not 0, 1, 2, 4 or 5 |
| Madt.NextRecord | src/acpi/madt.c:18-31 | NULL exactly when the table or the record is NULL, the record lies before byte 44, or record + length reaches the table end; otherwise the result is record + length, inside `[records, end)`; it is strictly after the record when the length is positive, and equal to it when the length is 0 |
| Madt.WalkShape | src/acpi/madt.c:19-30 | stepping from the first record while the result is not NULL visits records in strictly increasing order, each record after the first inside the record area and each starting where the previous one ends, and stops at the first record whose step is NULL |
| Madt.WalkOffset | src/acpi/madt.c:23-30 | the k-th visited record lies at the first record plus the sum of the lengths of the k records before it |
| Madt.PositiveLengthsTerminate | src/apic/ioapic.c:96-106 | if every record the cursor reaches from the first one (the n-fold step `Iter`, for every n) has positive length, the scan loop ends |
| Madt.TerminatesAdvances | src/acpi/madt.c:19-30 | conversely, along a walk that ends, every step that does not return NULL moves strictly forward |
| Madt.ZeroLengthDiverges | src/acpi/madt.c:24 | a zero-length record inside the table is its own successor, so a loop that reaches it never ends |
| IoApicRegs.WindowLayout | inc/apic/ioapic.h:20-21 | IOREGSEL is the 32-bit word at byte offset 0 of the base, IOWIN the one at byte offset 0x10 |
| IoApic.WindowAddresses | src/apic/ioapic.c:23-39 | a read or write of a non-NULL controller first stores the index to the word at the base address (`AccessAddress` of the select), then stores or loads the word at base + 0x10, and the two words do not overlap |
| IoApicRegs.RedEntryIndices | inc/apic/ioapic.h:26-27 | the high index of entry n is the low index plus 1; indices of different entries never coincide; none is the ID, VER or ARB index (0, 1, 2) |
| IoApicRegs.DecodeId | inc/apic/ioapic.h:29-33 | the decoded ID register re-encodes to the raw word (reserved bits 0-23, id in bits 24-27, reserved bits 28-31) |
| IoApicRegs.DecodeVer | inc/apic/ioapic.h:35-40 | the decoded VER register re-encodes to the raw word (version in bits 0-8, highest entry index in bits 16-23) |
| IoApicRegs.DecodeArb | inc/apic/ioapic.h:42-46 | the decoded ARB register re-encodes to the raw word (arbitration id in bits 24-27) |
| IoApicRegs.RegisterRoundTrips | inc/apic/ioapic.h:29-46 | decoding an encoded ID, VER or ARB register gives every field back |
| IoApicRegs.IdAndArbShareBits | inc/apic/ioapic.h:42-46 | the ID register's `ioapic_id` and the ARB register's `ioapic_arb_id` are the same bits of a raw word |
| IoApicRegs.DecodeEntry | inc/apic/ioapic.h:48-72 | a decoded 64-bit entry re-encodes to the raw word: vector 0-7, delivery mode 8-10, destination mode 11, delivery status 12, polarity 13, remote IRR 14, trigger 15, mask 16, reserved 17-55, destination 56-63 |
| IoApicRegs.EntryRoundTrip | inc/apic/ioapic.h:48-72 | decoding an encoded entry gives every field back |
| IoApicRegs.Join | inc/apic/ioapic.h:73-76 | joining `lower` and `higher` makes the word whose bits 0-31 are `lower` and bits 32-63 are `higher` |
| IoApicRegs.SplitJoin | inc/apic/ioapic.h:48-77 | joining the two halves of a word gives the word back |
| IoApicRegs.EntryHalves | inc/apic/ioapic.h:48-77 | the low half carries vector, delivery mode, destination mode, polarity, trigger mode and mask at their bit positions; the high half carries the destination in its top byte |
| IoApic.Mmio.SelectRegister | src/apic/ioapic.c:28 | a store to IOREGSEL appends `Select(base, reg)` and makes `reg` the base's selected index |
| IoApic.Mmio.WriteWindow | src/apic/ioapic.c:29 | a store to IOWIN appends `Write(base, value)` and sets the selected register of that base |
| IoApic.Mmio.ReadWindow | src/apic/ioapic.c:38 | a load of IOWIN returns the selected register, appends `Read(base, value)` and changes no register |
| IoApic.WriteTraceEffect | src/apic/ioapic.c:23-30 | a register write stores the value in exactly one register, `reg` of `base`, and leaves `reg` selected; a NULL base changes nothing |
| IoApic.ReadTraceEffect | src/apic/ioapic.c:32-39 | a register read changes no register; it leaves `reg` selected for a non-NULL base |
| IoApic.IoApicWrite | src/apic/ioapic.c:23-30 | no access for a NULL base; otherwise exactly `Select(reg)` then `Write(value)` |
| IoApic.IoApicRead | src/apic/ioapic.c:32-39 | NULL base: 0 and no access; otherwise exactly `Select(reg)` then `Read` of the window, returning register `reg` |
| IoApic.MaxEntry | inc/apic/ioapic.h:35-40 | the highest redirection entry index is at most 255, and 0 for a NULL base |
| IoApic.MaxEntryBits | inc/apic/ioapic.h:38 | the highest entry index is bits 16-23 of the raw VER word |
| IoApic.NullBaseReadsZero | src/apic/ioapic.c:23-69 | with a NULL base, the ID, VER and ARB reads give all-zero values, and reads and writes of every register index and value make no access, and every raw read returns 0 |
| IoApic.IoApicReadId | src/apic/ioapic.c:41-49 | returns the decode of register 0 with one read of it; for a NULL base, all zeros and no access |
| IoApic.IoApicReadVer | src/apic/ioapic.c:51-59 | returns the decode of register 1 with one read of it; for a NULL base, all zeros and no access |
| IoApic.IoApicReadArb | src/apic/ioapic.c:61-69 | returns the decode of register 2 with one read of it; for a NULL base, all zeros and no access |
| IoApic.WriteEntryEffect | src/apic/ioapic.c:71-76 | writing entry n stores the low half at 0x10+2n and the high half at 0x11+2n, and changes no other register |
| IoApic.WriteThenReadEntry | src/apic/ioapic.c:71-87 | on the ideal register file, writing entry n of a non-NULL base and reading it back gives the entry written |
| IoApic.IoApicWriteRedirectionEntry | src/apic/ioapic.c:71-76 | no access for a NULL base; otherwise a write of `lower` to 0x10+2n, then of `higher` to 0x11+2n |
| IoApic.IoApicReadRedirectionEntry | src/apic/ioapic.c:78-87 | reads the same two indices in the same order and returns their join, decoded; for a NULL base, the zero entry and no access |
| IoApicInit.Registry.constructor | src/apic/ioapic.c:20-21 | both 256-slot registries start empty |
| IoApicInit.ScanIoApics | src/apic/ioapic.c:97-99 | the `ioapics` registry after the scan keeps its 256 slots; what each slot holds is stated by the two `LastIoApic` lemmas below |
| IoApicInit.ScanIsos | src/apic/ioapic.c:100-103 | the `isos` registry after the scan keeps its 256 slots; what each slot holds is stated by the two `LastIso` lemmas below |
| IoApicInit.LastIoApicMatched | src/apic/ioapic.c:97-99 | slot k of `ioapics` holds the last scanned I/O APIC record with id k |
| IoApicInit.LastIoApicUnmatched | src/apic/ioapic.c:96-106 | a slot of `ioapics` that no scanned I/O APIC record has as its id keeps its previous content |
| IoApicInit.LastIsoMatched | src/apic/ioapic.c:100-103 | slot k of `isos` holds the last scanned override record with source IRQ k |
| IoApicInit.LastIsoUnmatched | src/apic/ioapic.c:96-106 | a slot of `isos` that no scanned override has as its source IRQ keeps its previous content |
| IoApicInit.ScanSnoc | src/apic/ioapic.c:96-105 | one more record sets the one slot its key selects when it is of type 1 (respectively 2), and changes neither registry otherwise |
| IoApicInit.Scan | src/apic/ioapic.c:94-106 | the `while (record != 0)` loop from byte 44 leaves both registries equal to the scan of the records the walk visits |
| IoApicInit.MaskedEntryWord | src/apic/ioapic.c:113 | the masking entry's only set bit is bit 16 (mask): low half 0x10000, high half 0 |
| IoApicInit.MaskController | src/apic/ioapic.c:110-115 | one controller's masking: one VER read, then entries 0 .. max written with the masked entry, in order |
| IoApicInit.MaskAll | src/apic/ioapic.c:108-117 | the masking loop makes exactly the accesses of `MaskPass`, controllers in slot order |
| IoApicInit.CoveredLine | src/apic/ioapic.c:149-156 | a GSI the (32-bit wrapping) range check admits gives a line `gsi - gsib` between 0 and the controller's highest entry index, which its `uint8_t` truncation leaves unchanged |
| IoApicInit.Route | src/apic/ioapic.c:145-154 | a routed slot is registered and its controller covers the GSI |
| IoApicInit.RouteIsLowest | src/apic/ioapic.c:145-154 | routing picks the lowest registered slot that covers the GSI; it finds none only when no registered controller covers it |
| IoApicInit.ProbeController | src/apic/ioapic.c:147-149 | one VER read of the controller, returning whether `gsib <= gsi <= gsib + max` in 32-bit arithmetic |
| IoApicInit.ProbeSlot | src/apic/ioapic.c:146-153 | one turn of the routing loop: a registered slot is probed, an empty one makes no access |
| IoApicInit.RouteGsi | src/apic/ioapic.c:145-154 | the routing loop stops at the slot `Route` picks, after reading the VER register of each registered controller up to and including it |
| IoApicInit.IsaEntryWord | src/apic/ioapic.c:121-143 | the ISA entry has destination `acpi_pid` in bits 56-63 and mask bit 16 set; bit 13 is set exactly when the override makes the IRQ active low, and bit 15 exactly when it makes it level triggered; every other bit, vector and delivery mode included, is 0 |
| IoApicInit.BuildIsaEntry | src/apic/ioapic.c:121-143 | the entry built is `IsaEntry(acpi_pid, isos[i])`, and the GSI is the override's GSI when there is one, else `i` |
| IoApicInit.ProgramLine | src/apic/ioapic.c:121-156 | one ISA IRQ: the routing reads, then one entry write to line `(gsi - gsib) mod 256` of the routed controller |
| IoApicInit.ProgramIsa | src/apic/ioapic.c:119-158 | the ISA loop makes exactly the accesses of `IsaPass`: IRQs 0 .. 15 in order, IRQ 2 skipped |
| IoApicInit.Initialize | src/apic/ioapic.c:89-158 | a NULL MADT changes nothing; otherwise the registries become the scan of the MADT, and the controllers receive the masking pass and then the ISA pass |
| IoApicOutcome.HoldsEntry | src/apic/ioapic.c:78-87 | a line whose two registers hold an entry's halves reads back as that entry |
| IoApicOutcome.MaskLinesShape | src/apic/ioapic.c:112-115 | masking lines 0 .. n-1 is exactly n entry writes, line j in the j-th block: select 0x10+2j, write 0x10000, select 0x11+2j, write 0; a NULL base makes no access |
| IoApicOutcome.MaskLinesEffect | src/apic/ioapic.c:112-115 | masking lines 0 .. n-1 sets exactly the registers 0x10 .. 0x10+2n-1 of that base, low halves to 0x10000 and high halves to 0 |
| IoApicOutcome.VerReadsKeepRegs | src/apic/ioapic.c:145-154 | the routing loop's VER reads change no register |
| IoApicOutcome.ControllerMaskEffect | src/apic/ioapic.c:110-115 | one controller's masking masks its lines 0 .. max and changes no other register |
| IoApicOutcome.MaskPassMasks | src/apic/ioapic.c:108-117 | after the masking loop, every line 0 .. max of every registered non-NULL controller holds the masked entry |
| IoApicOutcome.IsaLineEffect | src/apic/ioapic.c:145-156 | one ISA IRQ's accesses store its entry in its target line and change no other register |
| IoApicOutcome.IsaLineWrites | src/apic/ioapic.c:156 | one ISA IRQ's accesses leave its (non-NULL) target line holding its entry |
| IoApicOutcome.IsaLineFrame | src/apic/ioapic.c:156 | one ISA IRQ's accesses leave every other line as it was |
| IoApicOutcome.IsaPassUntouched | src/apic/ioapic.c:119-158 | a line that no ISA IRQ other than 2 targets keeps both its registers through the ISA loop |
| IoApicOutcome.IsaPassSuffixKeeps | src/apic/ioapic.c:119-158 | a line that none of the ISA IRQs `from` .. n-1 targets has the same two registers after their accesses as before them |
| IoApicOutcome.IsaPassLastWins | src/apic/ioapic.c:119-158 | after the ISA loop, IRQ i's line holds IRQ i's entry unless a later IRQ targets the same line |
| IoApicOutcome.InitProgramsIsa | src/apic/ioapic.c:89-158 | after `ioapic_initialize`, ISA IRQ i (not 2) reads back on its line as its programmed entry, unless a later ISA IRQ targets the same line |
| IoApicOutcome.InitMasksUntargeted | src/apic/ioapic.c:89-158 | after `ioapic_initialize`, every line 0 .. max of a registered non-NULL controller that no ISA IRQ targets reads back as the masked entry |

## Left out

- Hardware semantics: IOWIN is an ideal register file. Real read-only bits (delivery status, remote IRR), access reordering and `volatile` are not modelled.
- Other inner registers: a never-written register reads 0. The model's VER values are whatever the initial bus holds.
- Pointer arithmetic: it is modelled on unbounded addresses. Wrap-around of `record + length` or `table + length` at 2^64 is not modelled.
- Table bytes are immutable: `Memory` is a function. That the walk and the lookups are read-only holds by construction rather than by a lemma.
- The registries store record values, not pointers. Memory never changes, so a pointer and the record it points to are interchangeable.
- IoApicInit.Initialize requires that the MADT walk ends (every record visited has positive length). Without that, the C loop never returns, as `Madt.ZeroLengthDiverges` shows.
- IoApicInit.Initialize requires that every ISA IRQ other than 2 be covered by some registered controller (`Routable`). Without one, the C code dereferences the uninitialised local `ioapic`, which has no defined meaning to model.
- IoApicOutcome.InitProgramsIsa covers a target line at a non-NULL controller address. A NULL address makes every access a no-op.
- Checksums of the RSDP and SDTs are not validated by the code, so they are not modelled.
- The local APIC and the 8259 PIC are not part of this model. The boot headers, the multiboot tags, the build configuration, the status-code enumeration and the older duplicate `inc/acpi.h` are not part of this model either.
- LAPIC, NMI and LAPIC-address-override records are decoded (`Madt.DecodeRecord`) but, as in the code, play no part in the scan.
