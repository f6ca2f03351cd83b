/**
 * ACPI table discovery: the root system description pointer (RSDP), the
 * common system description table (SDT) header and the two root tables
 * (RSDT with 32-bit entries, XSDT with 64-bit entries), following sections
 * 5.2.5 to 5.2.8 of the ACPI specification.
 *
 * Pointers are physical addresses; the address 0 is NULL.
 */
module Acpi {
  import opened Wrappers
  import opened Bytes

  // Packed RSDP layout: revision-1 fields, then the revision-2 extension.
  const RSDP_RSDT_ADDRESS: nat := 16  // uint32 rsdt_address at bytes 16-19
  const RSDP_XSDT_ADDRESS: nat := 24  // uint64 xsdt_address at bytes 24-31

  // Packed SDT header layout (36 bytes).
  const SDT_SIGNATURE: nat := 0       // char signature[4] at bytes 0-3
  const SDT_LENGTH: nat := 4          // uint32 length at bytes 4-7
  const SDT_HEADER_SIZE: nat := 36

  /** A table signature: exactly four characters, no terminator. */
  type Signature = s: seq<byte> | |s| == 4 witness [0, 0, 0, 0]

  /** Which root table an RSDP revision leads to. */
  datatype RootTable = Rsdt | Xsdt {
    /** Width in bytes of one entry of the root table's pointer array. */
    function EntrySize(): nat {
      if Rsdt? then 4 else 8
    }
  }

  function RsdtAddress(mem: Memory, rsdp: nat): u32 {
    LE32(mem, rsdp + RSDP_RSDT_ADDRESS)
  }

  function XsdtAddress(mem: Memory, rsdp: nat): u64 {
    LE64(mem, rsdp + RSDP_XSDT_ADDRESS)
  }

  /** The address of the root table the RSDP at `rsdp` points to. */
  function RootAddress(mem: Memory, kind: RootTable, rsdp: nat): u64 {
    if kind.Rsdt? then RsdtAddress(mem, rsdp) else XsdtAddress(mem, rsdp)
  }

  /** The `length` field of the SDT header at `sdt`. */
  function SdtLength(mem: Memory, sdt: nat): u32 {
    LE32(mem, sdt + SDT_LENGTH)
  }

  /**
   * The number of entries the lookup scans: `(length - 36) / size` where the
   * subtraction is done in 64-bit `size_t` arithmetic and the quotient is
   * stored in a `uint32_t`. A length shorter than the header wraps around to
   * an entry count close to 2^32.
   */
  function EntryCount(length: u32, size: nat): u32
    requires size == 4 || size == 8
  {
    (((length - SDT_HEADER_SIZE) % U64_MODULUS) / size) % U32_MODULUS
  }

  /**
   * A table at least as long as its header holds `(length - 36) / size`
   * entries; a shorter one is scanned as if it held 2^32 - 9 or more.
   */
  lemma EntryCountValue(length: u32, size: nat)
    requires size == 4 || size == 8
    ensures length >= SDT_HEADER_SIZE ==> EntryCount(length, size) == (length - SDT_HEADER_SIZE) / size
    ensures length < SDT_HEADER_SIZE ==> EntryCount(length, size) == U32_MODULUS + (length - SDT_HEADER_SIZE) / size
    ensures length < SDT_HEADER_SIZE ==> EntryCount(length, size) >= U32_MODULUS - 9
  {
    var d := length - SDT_HEADER_SIZE;
    if d >= 0 {
      assert d % U64_MODULUS == d;
      assert d / size < U32_MODULUS;
    } else {
      assert d % U64_MODULUS == U64_MODULUS + d;
      assert (U64_MODULUS + d) / size == U64_MODULUS / size + d / size;
      assert U64_MODULUS / size == (U64_MODULUS / size / U32_MODULUS) * U32_MODULUS;
    }
  }

  /** The address of entry `i` of the pointer array that follows the root table's header. */
  function EntryAddress(kind: RootTable, root: nat, i: nat): nat {
    root + SDT_HEADER_SIZE + kind.EntrySize() * i
  }

  /** Entry `i` of the root table at `root`: a little-endian table address. */
  function Entry(mem: Memory, kind: RootTable, root: nat, i: nat): u64 {
    if kind.Rsdt? then LE32(mem, EntryAddress(kind, root, i))
    else LE64(mem, EntryAddress(kind, root, i))
  }

  /** The four signature bytes of the SDT at `sdt` equal `signature`, position by position. */
  predicate SignatureMatches(mem: Memory, sdt: nat, signature: Signature) {
    && mem(sdt + SDT_SIGNATURE) == signature[0]
    && mem(sdt + SDT_SIGNATURE + 1) == signature[1]
    && mem(sdt + SDT_SIGNATURE + 2) == signature[2]
    && mem(sdt + SDT_SIGNATURE + 3) == signature[3]
  }

  predicate EntryMatches(mem: Memory, kind: RootTable, root: nat, i: nat, signature: Signature) {
    SignatureMatches(mem, Entry(mem, kind, root, i), signature)
  }

  /** The entry test of the lookup loop: does entry `i` point at a table carrying `signature`? */
  function Matcher(mem: Memory, kind: RootTable, root: nat, signature: Signature): nat -> bool {
    (i: nat) => EntryMatches(mem, kind, root, i, signature)
  }

  /** The first index in `from .. count - 1` that satisfies `p`. */
  function FirstFrom(p: nat -> bool, count: nat, from: nat): Option<nat>
    decreases count - from
  {
    if from >= count then None
    else if p(from) then Some(from)
    else FirstFrom(p, count, from + 1)
  }

  /** `FirstFrom` finds the lowest satisfying index, and finds none only when no index in range satisfies `p`. */
  lemma {:induction false} FirstFromIsFirst(p: nat -> bool, count: nat, from: nat)
    ensures var r := FirstFrom(p, count, from);
      r.Some? ==> from <= r.value < count && p(r.value) && forall j :: from <= j < r.value ==> !p(j)
    ensures FirstFrom(p, count, from).None? ==> forall j :: from <= j < count ==> !p(j)
    decreases count - from
  {
    if from < count && !p(from) {
      FirstFromIsFirst(p, count, from + 1);
    }
  }

  /** An index that satisfies `p` while no earlier one does is the one `FirstFrom` finds. */
  lemma FirstFromUnique(p: nat -> bool, count: nat, k: nat)
    requires k < count && p(k)
    requires forall j :: 0 <= j < k ==> !p(j)
    ensures FirstFrom(p, count, 0) == Some(k)
  {
    FirstFromIsFirst(p, count, 0);
    match FirstFrom(p, count, 0)
    case Some(k') =>
      assert !(k' < k) && !(k < k');
    case None =>
  }

  /**
   * What a lookup returns: NULL when either argument is NULL, otherwise the
   * address held by the first root-table entry (within the entry count) whose
   * table carries the signature, or NULL when there is none.
   */
  function Lookup(mem: Memory, kind: RootTable, rsdp: nat, signature: Option<Signature>): u64 {
    if rsdp == 0 || signature.None? then 0
    else
      var root := RootAddress(mem, kind, rsdp);
      var count := EntryCount(SdtLength(mem, root), kind.EntrySize());
      match FirstFrom(Matcher(mem, kind, root, signature.value), count, 0)
      case Some(k) => Entry(mem, kind, root, k)
      case None => 0
  }

  /** Either argument NULL: the lookup returns NULL. */
  lemma LookupNullArguments(mem: Memory, kind: RootTable, rsdp: nat, signature: Option<Signature>)
    requires rsdp == 0 || signature.None?
    ensures Lookup(mem, kind, rsdp, signature) == 0
  {
  }

  /**
   * A non-NULL result is the table of a matching entry within the entry
   * count, and no earlier entry matched; in particular its signature equals
   * the argument.
   */
  lemma LookupFound(mem: Memory, kind: RootTable, rsdp: nat, signature: Signature)
    requires rsdp != 0
    ensures var root := RootAddress(mem, kind, rsdp);
      var count := EntryCount(SdtLength(mem, root), kind.EntrySize());
      var r := Lookup(mem, kind, rsdp, Some(signature));
      r != 0 ==>
        && SignatureMatches(mem, r, signature)
        && exists k :: 0 <= k < count && Entry(mem, kind, root, k) == r
                       && EntryMatches(mem, kind, root, k, signature)
                       && forall j :: 0 <= j < k ==> !EntryMatches(mem, kind, root, j, signature)
  {
    var root := RootAddress(mem, kind, rsdp);
    var count := EntryCount(SdtLength(mem, root), kind.EntrySize());
    var p := Matcher(mem, kind, root, signature);
    FirstFromIsFirst(p, count, 0);
    match FirstFrom(p, count, 0)
    case Some(k) =>
      assert Lookup(mem, kind, rsdp, Some(signature)) == Entry(mem, kind, root, k);
      assert EntryMatches(mem, kind, root, k, signature) == p(k);
      forall j | 0 <= j < k
        ensures !EntryMatches(mem, kind, root, j, signature)
      {
        assert !p(j);
      }
    case None =>
      assert Lookup(mem, kind, rsdp, Some(signature)) == 0;
  }

  /**
   * The lowest-index matching entry within the count decides the result, and
   * when no entry within the count matches the result is NULL. Entries at or
   * beyond the count play no part. (An entry that matches while holding
   * address 0 yields NULL too, exactly as a C caller would see it.)
   */
  lemma LookupFirstMatch(mem: Memory, kind: RootTable, rsdp: nat, signature: Signature)
    requires rsdp != 0
    ensures var root := RootAddress(mem, kind, rsdp);
      var count := EntryCount(SdtLength(mem, root), kind.EntrySize());
      var r := Lookup(mem, kind, rsdp, Some(signature));
      && ((forall j :: 0 <= j < count ==> !EntryMatches(mem, kind, root, j, signature)) ==> r == 0)
      && (forall k :: 0 <= k < count && EntryMatches(mem, kind, root, k, signature)
                      && (forall j :: 0 <= j < k ==> !EntryMatches(mem, kind, root, j, signature))
                      ==> r == Entry(mem, kind, root, k))
  {
    var root := RootAddress(mem, kind, rsdp);
    var count := EntryCount(SdtLength(mem, root), kind.EntrySize());
    FirstFromIsFirst(Matcher(mem, kind, root, signature), count, 0);
    forall k | 0 <= k < count && EntryMatches(mem, kind, root, k, signature)
               && (forall j :: 0 <= j < k ==> !EntryMatches(mem, kind, root, j, signature))
      ensures FirstFrom(Matcher(mem, kind, root, signature), count, 0) == Some(k)
    {
      FirstFromUnique(Matcher(mem, kind, root, signature), count, k);
    }
  }

  /**
   * `acpi_old_rsdp_get_SDT`: scan the RSDT the revision-1 RSDP at `self`
   * points to, returning the first table whose signature matches.
   */
  method OldRsdpGetSdt(mem: Memory, self: nat, signature: Option<Signature>) returns (sdt: u64)
    ensures sdt == Lookup(mem, Rsdt, self, signature)
  {
    if self == 0 || signature.None? {
      return 0;
    }
    var rsdt := RsdtAddress(mem, self);
    var length := EntryCount(SdtLength(mem, rsdt), 4);
    assert rsdt == RootAddress(mem, Rsdt, self) && 4 == Rsdt.EntrySize();
    for i := 0 to length
      // no entry before i matched
      invariant FirstFrom(Matcher(mem, Rsdt, rsdt, signature.value), length, 0)
             == FirstFrom(Matcher(mem, Rsdt, rsdt, signature.value), length, i)
    {
      var candidate := Entry(mem, Rsdt, rsdt, i);  // rsdt->sdt_pointers[i]
      if SignatureMatches(mem, candidate, signature.value) {
        return candidate;
      }
    }
    return 0;
  }

  /**
   * `acpi_new_rsdp_get_SDT`: scan the XSDT the revision-2 RSDP at `self`
   * points to, returning the first table whose signature matches.
   */
  method NewRsdpGetSdt(mem: Memory, self: nat, signature: Option<Signature>) returns (sdt: u64)
    ensures sdt == Lookup(mem, Xsdt, self, signature)
  {
    if self == 0 || signature.None? {
      return 0;
    }
    var xsdt := XsdtAddress(mem, self);
    var length := EntryCount(SdtLength(mem, xsdt), 8);
    assert xsdt == RootAddress(mem, Xsdt, self) && 8 == Xsdt.EntrySize();
    for i := 0 to length
      // no entry before i matched
      invariant FirstFrom(Matcher(mem, Xsdt, xsdt, signature.value), length, 0)
             == FirstFrom(Matcher(mem, Xsdt, xsdt, signature.value), length, i)
    {
      var candidate := Entry(mem, Xsdt, xsdt, i);  // xsdt->sdt_pointers[i]
      if SignatureMatches(mem, candidate, signature.value) {
        return candidate;
      }
    }
    return 0;
  }
}
