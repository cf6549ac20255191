/*
 * x86-64 page-table entries as used by the nested-paging test: the
 * attribute-mask algebra, the translation of virtual-region flags to page
 * flags, and the four entry formats (page-directory entry, 1 GiB, 2 MiB and
 * 4 KiB page entries) packed into a 64-bit word as in section 4.5 of
 * volume 3A of the Intel 64 and IA-32 Architectures Software Developer's
 * Manual.  A page table is an array of 64-bit entries; writing through an
 * entry pointer is an update of one array cell.
 */
module NestedPaging {

  /* ---------------- Page-table flag bits (X86_64_PTABLE_*) ---------------- */

  const Present: bv64 := 1 << 0
  const ReadWrite: bv64 := 1 << 1
  const UserSupervisor: bv64 := 1 << 2
  const WriteThrough: bv64 := 1 << 3
  const CacheDisabled: bv64 := 1 << 4
  const Accessed: bv64 := 1 << 5
  const Dirty: bv64 := 1 << 6
  const AttrIndex: bv64 := 1 << 7
  const GlobalPage: bv64 := 1 << 8
  const ExecuteDisable: bv64 := 1 << 63
  const PtableClear: bv64 := 0

  /** The flags user space may use for access protection */
  const AccessMask: bv64 := ExecuteDisable | UserSupervisor | ReadWrite
  /** The arch-specific flags user space may set */
  const FlagsMask: bv64 := GlobalPage | AttrIndex | Dirty | Accessed | CacheDisabled | WriteThrough

  /** A 1 GiB page covers 2^30 bytes */
  const HugePageBits: bv64 := 30

  /* ---------------- Virtual-region flags (VREGION_FLAGS_*) ---------------- */

  const VregionWrite: bv32 := 0x02
  const VregionExecute: bv32 := 0x04
  const VregionNocache: bv32 := 0x08
  const VregionGuard: bv32 := 0x20

  predicate Has(flags: bv64, flag: bv64)
  {
    flags & flag != 0
  }

  predicate VregionHas(flags: bv32, flag: bv32)
  {
    flags & flag != 0
  }

  /** Bit k of an entry */
  predicate Bit(e: bv64, k: bv64)
    requires k < 64
  {
    (e >> k) & 1 == 1
  }

  /** The width-bit field of an entry starting at bit lo */
  function Field(e: bv64, lo: bv64, width: bv64): bv64
    requires lo < 64 && width < 64 && lo + width <= 64
  {
    (e >> lo) & (((1 as bv64) << width) - 1)
  }

  /** Assigning to a C bitfield: v truncated to width bits replaces the field at lo */
  function SetField(e: bv64, lo: bv64, width: bv64, v: bv64): (r: bv64)
    requires lo < 64 && width < 64 && lo + width <= 64
  {
    var m := ((1 as bv64) << width) - 1;
    (e & !(m << lo)) | ((v & m) << lo)
  }

  /** `bitmap & flag ? 1 : 0` */
  function FlagBit(bitmap: bv64, flag: bv64): bv64
  {
    if bitmap & flag != 0 then 1 else 0
  }

  /** X86_64_IS_PRESENT */
  predicate IsPresent(e: bv64)
  {
    e & Present != 0
  }

  /* ---------------- Attribute masking ---------------- */

  /**
   * paging_x86_64_mask_attrs: every right is kept only if the mask grants
   * it; execute-disable works the other way round and is set if either
   * side sets it.
   */
  function MaskAttrs(attr: bv64, mask: bv64): (r: bv64)
    ensures r & !ExecuteDisable == attr & mask & !ExecuteDisable
    ensures r & ExecuteDisable == (attr | mask) & ExecuteDisable
  {
    var kept := attr & (mask | ExecuteDisable);
    kept | (mask & ExecuteDisable)
  }

  /** Masking twice with the same mask is masking once */
  lemma MaskAttrsIdempotent(attr: bv64, mask: bv64)
    ensures MaskAttrs(MaskAttrs(attr, mask), mask) == MaskAttrs(attr, mask)
  {
  }

  /** Masks compose: masking by m1 then m2 is masking by the mask both grant */
  lemma MaskAttrsCompose(attr: bv64, m1: bv64, m2: bv64)
    ensures MaskAttrs(MaskAttrs(attr, m1), m2)
      == MaskAttrs(attr, (m1 & m2 & !ExecuteDisable) | ((m1 | m2) & ExecuteDisable))
  {
    var m := (m1 & m2 & !ExecuteDisable) | ((m1 | m2) & ExecuteDisable);
    ComposeRights(attr, m1, m2);
    ComposeExecuteDisable(attr, m1, m2);
    SplitEqual(MaskAttrs(MaskAttrs(attr, m1), m2), MaskAttrs(attr, m), ExecuteDisable);
  }

  /** The rights kept by two maskings are those both masks grant */
  lemma ComposeRights(attr: bv64, m1: bv64, m2: bv64)
    ensures MaskAttrs(MaskAttrs(attr, m1), m2) & !ExecuteDisable == attr & m1 & m2 & !ExecuteDisable
    ensures var m := (m1 & m2 & !ExecuteDisable) | ((m1 | m2) & ExecuteDisable);
      MaskAttrs(attr, m) & !ExecuteDisable == attr & m1 & m2 & !ExecuteDisable
  {
  }

  /** Execute-disable after two maskings is set if any of the three sets it */
  lemma ComposeExecuteDisable(attr: bv64, m1: bv64, m2: bv64)
    ensures MaskAttrs(MaskAttrs(attr, m1), m2) & ExecuteDisable == (attr | m1 | m2) & ExecuteDisable
    ensures var m := (m1 & m2 & !ExecuteDisable) | ((m1 | m2) & ExecuteDisable);
      MaskAttrs(attr, m) & ExecuteDisable == (attr | m1 | m2) & ExecuteDisable
  {
  }

  /** Two words agreeing inside and outside a mask are equal */
  lemma SplitEqual(y: bv64, z: bv64, d: bv64)
    requires y & !d == z & !d && y & d == z & d
    ensures y == z
  {
  }

  /* ---------------- Virtual-region flags to page flags ---------------- */

  /**
   * The pmap flags a virtual region asks for: user access and no execution
   * by default, then write, execute and uncached as requested, unless the
   * region is a guard region.
   */
  function PmapFlags(v: bv32): (f: bv64)
    ensures Has(f, UserSupervisor)
    ensures Has(f, ReadWrite) <==> VregionHas(v, VregionWrite) && !VregionHas(v, VregionGuard)
    ensures !Has(f, ExecuteDisable) <==> VregionHas(v, VregionExecute) && !VregionHas(v, VregionGuard)
    ensures Has(f, CacheDisabled) <==> VregionHas(v, VregionNocache) && !VregionHas(v, VregionGuard)
    ensures f & !(UserSupervisor | ReadWrite | ExecuteDisable | CacheDisabled) == 0
  {
    var initial := UserSupervisor | ExecuteDisable;
    if v & VregionGuard != 0 then initial
    else
      var writable := if v & VregionWrite != 0 then initial | ReadWrite else initial;
      var executable := if v & VregionExecute != 0 then writable & !ExecuteDisable else writable;
      if v & VregionNocache != 0 then executable | CacheDisabled else executable
  }

  /**
   * vregion_to_pmap as written: the access rights of PmapFlags mask a fixed
   * user/read-write/no-execute set, the arch-specific flags are taken from
   * that masked set itself, and the page is marked present.  Because
   * mask_attrs ORs execute-disable, the result never permits execution, and
   * because the masked set has no arch-specific flags, the result never
   * carries CACHE_DISABLED.
   */
  function VregionToPmap(v: bv32): (r: bv64)
    ensures Has(r, Present) && Has(r, UserSupervisor) && Has(r, ExecuteDisable)
    ensures Has(r, ReadWrite) <==> VregionHas(v, VregionWrite) && !VregionHas(v, VregionGuard)
    ensures r & !(Present | UserSupervisor | ReadWrite | ExecuteDisable) == 0
  {
    var pmap := PmapFlags(v);
    var masked := MaskAttrs(UserSupervisor | ReadWrite | ExecuteDisable, pmap & AccessMask);
    var withArch := masked | (masked & FlagsMask);
    withArch | Present
  }

  /** An uncached region's request for CACHE_DISABLED is lost by the translation as written */
  lemma NocacheDropped()
    ensures Has(PmapFlags(VregionNocache), CacheDisabled)
    ensures !Has(VregionToPmap(VregionNocache), CacheDisabled)
  {
  }

  /**
   * vregion_to_pmap with the arch-specific flags taken from the pmap flags
   * rather than from the masked set: an uncached region gets
   * CACHE_DISABLED, everything else is as before.
   */
  function VregionToPmapIntended(v: bv32): (r: bv64)
    ensures Has(r, Present) && Has(r, UserSupervisor) && Has(r, ExecuteDisable)
    ensures Has(r, ReadWrite) <==> VregionHas(v, VregionWrite) && !VregionHas(v, VregionGuard)
    ensures Has(r, CacheDisabled) <==> VregionHas(v, VregionNocache) && !VregionHas(v, VregionGuard)
    ensures r & !(Present | UserSupervisor | ReadWrite | ExecuteDisable | CacheDisabled) == 0
  {
    var pmap := PmapFlags(v);
    var masked := MaskAttrs(UserSupervisor | ReadWrite | ExecuteDisable, pmap & AccessMask);
    var withArch := masked | (pmap & FlagsMask);
    withArch | Present
  }

  /** The two translations differ only in CACHE_DISABLED */
  lemma IntendedDiffersOnlyInCacheDisabled(v: bv32)
    ensures VregionToPmapIntended(v) & !CacheDisabled == VregionToPmap(v)
  {
  }

  /* ---------------- Entry layouts ---------------- */

  // Bit positions shared by the page-entry formats
  const PresentBit: bv64 := 0
  const ReadWriteBit: bv64 := 1
  const UserSupervisorBit: bv64 := 2
  const WriteThroughBit: bv64 := 3
  const CacheDisabledBit: bv64 := 4
  const AlwaysOneBit: bv64 := 7       // page-size bit of 1 GiB and 2 MiB entries
  const GlobalBit: bv64 := 8
  const LargeAttrIndexBit: bv64 := 12 // PAT bit of 1 GiB and 2 MiB entries
  const SmallAttrIndexBit: bv64 := 7  // PAT bit of 4 KiB entries
  const ExecuteDisableBit: bv64 := 63

  // base_addr fields: first bit and width
  const PdirBaseLo: bv64 := 12
  const PdirBaseWidth: bv64 := 28
  const HugeBaseLo: bv64 := 30
  const HugeBaseWidth: bv64 := 10
  const LargeBaseLo: bv64 := 21
  const LargeBaseWidth: bv64 := 27
  const SmallBaseLo: bv64 := 12
  const SmallBaseWidth: bv64 := 36

  /** The flag fields that mapping and modify_flags set in 1 GiB and 2 MiB entries */
  const PageFlagBits: bv64 := Present | ReadWrite | UserSupervisor | WriteThrough | CacheDisabled
    | (1 << AlwaysOneBit) | (1 << GlobalBit) | (1 << LargeAttrIndexBit) | ExecuteDisable
  /** The flag fields that mapping and modify_flags set in 4 KiB entries */
  const SmallFlagBits: bv64 := Present | ReadWrite | UserSupervisor | WriteThrough | CacheDisabled
    | (1 << SmallAttrIndexBit) | (1 << GlobalBit) | ExecuteDisable

  /** The bits of a width-bit field at lo */
  function FieldMask(lo: bv64, width: bv64): bv64
    requires lo < 64 && width < 64 && lo + width <= 64
  {
    (((1 as bv64) << width) - 1) << lo
  }

  /** The bits a freshly built entry leaves clear: everything but its flags and base */
  const PdirZeroBits: bv64 := !(Present | ReadWrite | UserSupervisor | FieldMask(PdirBaseLo, PdirBaseWidth))
  const HugeZeroBits: bv64 := !(PageFlagBits | FieldMask(HugeBaseLo, HugeBaseWidth))
  const LargeZeroBits: bv64 := !(PageFlagBits | FieldMask(LargeBaseLo, LargeBaseWidth))
  const SmallZeroBits: bv64 := !(SmallFlagBits | FieldMask(SmallBaseLo, SmallBaseWidth))

  /** A flag of the bitmap placed at bit pos of an entry */
  function Place(bitmap: bv64, flag: bv64, pos: bv64): bv64
    requires pos < 64
  {
    if bitmap & flag != 0 then (1 as bv64) << pos else 0
  }

  /** The five low flag fields, laid out alike in every page-entry format */
  function LowFlags(bitmap: bv64): (r: bv64)
    ensures Bit(r, PresentBit) == Has(bitmap, Present)
    ensures Bit(r, ReadWriteBit) == Has(bitmap, ReadWrite)
    ensures Bit(r, UserSupervisorBit) == Has(bitmap, UserSupervisor)
    ensures Bit(r, WriteThroughBit) == Has(bitmap, WriteThrough)
    ensures Bit(r, CacheDisabledBit) == Has(bitmap, CacheDisabled)
    ensures r & !0x1f == 0
  {
    Place(bitmap, Present, PresentBit) | Place(bitmap, ReadWrite, ReadWriteBit)
      | Place(bitmap, UserSupervisor, UserSupervisorBit) | Place(bitmap, WriteThrough, WriteThroughBit)
      | Place(bitmap, CacheDisabled, CacheDisabledBit)
  }

  /** The flag fields of a 1 GiB / 2 MiB entry: each is set iff the bitmap has that flag */
  function PageFlags(bitmap: bv64): (r: bv64)
    ensures Bit(r, PresentBit) == Has(bitmap, Present)
    ensures Bit(r, ReadWriteBit) == Has(bitmap, ReadWrite)
    ensures Bit(r, UserSupervisorBit) == Has(bitmap, UserSupervisor)
    ensures Bit(r, WriteThroughBit) == Has(bitmap, WriteThrough)
    ensures Bit(r, CacheDisabledBit) == Has(bitmap, CacheDisabled)
    ensures Bit(r, GlobalBit) == Has(bitmap, GlobalPage)
    ensures Bit(r, LargeAttrIndexBit) == Has(bitmap, AttrIndex)
    ensures Bit(r, ExecuteDisableBit) == Has(bitmap, ExecuteDisable)
    ensures Bit(r, AlwaysOneBit)
    ensures r & !PageFlagBits == 0
  {
    LowFlags(bitmap) | Place(bitmap, GlobalPage, GlobalBit)
      | Place(bitmap, AttrIndex, LargeAttrIndexBit) | Place(bitmap, ExecuteDisable, ExecuteDisableBit)
      | (1 << AlwaysOneBit)
  }

  /** The flag fields of a 4 KiB entry: each is set iff the bitmap has that flag */
  function SmallFlags(bitmap: bv64): (r: bv64)
    ensures Bit(r, PresentBit) == Has(bitmap, Present)
    ensures Bit(r, ReadWriteBit) == Has(bitmap, ReadWrite)
    ensures Bit(r, UserSupervisorBit) == Has(bitmap, UserSupervisor)
    ensures Bit(r, WriteThroughBit) == Has(bitmap, WriteThrough)
    ensures Bit(r, CacheDisabledBit) == Has(bitmap, CacheDisabled)
    ensures Bit(r, GlobalBit) == Has(bitmap, GlobalPage)
    ensures Bit(r, SmallAttrIndexBit) == Has(bitmap, AttrIndex)
    ensures Bit(r, ExecuteDisableBit) == Has(bitmap, ExecuteDisable)
    ensures r & !SmallFlagBits == 0
  {
    LowFlags(bitmap) | Place(bitmap, AttrIndex, SmallAttrIndexBit)
      | Place(bitmap, GlobalPage, GlobalBit) | Place(bitmap, ExecuteDisable, ExecuteDisableBit)
  }

  /**
   * A base_addr field: base shifted right by shift, truncated to width bits
   * and placed at bit lo; nothing outside the field is set.
   */
  function BaseField(base: bv64, shift: bv64, lo: bv64, width: bv64): bv64
    requires shift < 64 && lo < 64 && width < 64 && lo + width <= 64
  {
    (base >> shift << lo) & FieldMask(lo, width)
  }

  /** The entry paging_x86_64_map_table builds: present, writable, user, pointing at base */
  function PdirEntry(base: bv64): (e: bv64)
    ensures Bit(e, PresentBit) && Bit(e, ReadWriteBit) && Bit(e, UserSupervisorBit)
    ensures Field(e, PdirBaseLo, PdirBaseWidth) == Field(base, 12, PdirBaseWidth)
    ensures e & PdirZeroBits == 0
  {
    Present | ReadWrite | UserSupervisor | BaseField(base, 12, PdirBaseLo, PdirBaseWidth)
  }

  /** The entry paging_x86_64_map_huge builds for a 1 GiB page: the bitmap's flags and base / 2^30 */
  function HugeEntry(base: bv64, bitmap: bv64): (e: bv64)
    ensures e & PageFlagBits == PageFlags(bitmap)
    ensures Field(e, HugeBaseLo, HugeBaseWidth) == Field(base, HugePageBits, HugeBaseWidth)
    ensures e & HugeZeroBits == 0
  {
    PageFlags(bitmap) | BaseField(base, HugePageBits, HugeBaseLo, HugeBaseWidth)
  }

  /** The entry paging_x86_64_map_large builds for a 2 MiB page: the bitmap's flags and base / 2^21 */
  function LargeEntry(base: bv64, bitmap: bv64): (e: bv64)
    ensures e & PageFlagBits == PageFlags(bitmap)
    ensures Field(e, LargeBaseLo, LargeBaseWidth) == Field(base, 21, LargeBaseWidth)
    ensures e & LargeZeroBits == 0
  {
    PageFlags(bitmap) | BaseField(base, 21, LargeBaseLo, LargeBaseWidth)
  }

  /** The entry paging_x86_64_map builds for a 4 KiB page: the bitmap's flags and base / 2^12 */
  function SmallEntry(base: bv64, bitmap: bv64): (e: bv64)
    ensures e & SmallFlagBits == SmallFlags(bitmap)
    ensures Field(e, SmallBaseLo, SmallBaseWidth) == Field(base, 12, SmallBaseWidth)
    ensures e & SmallZeroBits == 0
  {
    SmallFlags(bitmap) | BaseField(base, 12, SmallBaseLo, SmallBaseWidth)
  }

  /** The 1 GiB / 2 MiB entry modify_flags leaves: new flags, every other bit of old kept */
  function ModifiedPage(prev: bv64, bitmap: bv64): (e: bv64)
    ensures e & PageFlagBits == PageFlags(bitmap)
    ensures e & !PageFlagBits == prev & !PageFlagBits
  {
    (prev & !PageFlagBits) | PageFlags(bitmap)
  }

  /** The 4 KiB entry modify_flags leaves: new flags, every other bit of old kept */
  function ModifiedSmall(prev: bv64, bitmap: bv64): (e: bv64)
    ensures e & SmallFlagBits == SmallFlags(bitmap)
    ensures e & !SmallFlagBits == prev & !SmallFlagBits
  {
    (prev & !SmallFlagBits) | SmallFlags(bitmap)
  }

  /** Changing the flags of a mapped 1 GiB page is mapping it afresh with the new flags */
  lemma ModifyHugeRemaps(base: bv64, b1: bv64, b2: bv64)
    ensures ModifiedPage(HugeEntry(base, b1), b2) == HugeEntry(base, b2)
  {
  }

  /** Changing the flags of a mapped 2 MiB page is mapping it afresh with the new flags */
  lemma ModifyLargeRemaps(base: bv64, b1: bv64, b2: bv64)
    ensures ModifiedPage(LargeEntry(base, b1), b2) == LargeEntry(base, b2)
  {
  }

  /** Changing the flags of a mapped 4 KiB page is mapping it afresh with the new flags */
  lemma ModifySmallRemaps(base: bv64, b1: bv64, b2: bv64)
    ensures ModifiedSmall(SmallEntry(base, b1), b2) == SmallEntry(base, b2)
  {
  }

  /* ---------------- Writing entries ---------------- */

  /** paging_x86_64_map_table: point entry i at the table at base */
  method MapTable(table: array<bv64>, i: nat, base: bv64)
    requires i < table.Length
    modifies table
    ensures table[i] == PdirEntry(base)
    ensures forall j :: 0 <= j < table.Length && j != i ==> table[j] == old(table[j])
  {
    var tmp := PtableClear;
    tmp := SetField(tmp, PresentBit, 1, 1);
    tmp := SetField(tmp, ReadWriteBit, 1, 1);
    tmp := SetField(tmp, UserSupervisorBit, 1, 1);
    tmp := SetField(tmp, PdirBaseLo, PdirBaseWidth, base >> 12);
    table[i] := tmp;
  }

  /** The five low flag fields set from a bitmap, one field at a time */
  function SetLowFlags(tmp: bv64, bitmap: bv64): (r: bv64)
    ensures r == (tmp & !0x1f) | LowFlags(bitmap)
  {
    var t0 := SetField(tmp, PresentBit, 1, FlagBit(bitmap, Present));
    var t1 := SetField(t0, ReadWriteBit, 1, FlagBit(bitmap, ReadWrite));
    var t2 := SetField(t1, UserSupervisorBit, 1, FlagBit(bitmap, UserSupervisor));
    var t3 := SetField(t2, WriteThroughBit, 1, FlagBit(bitmap, WriteThrough));
    var t4 := SetField(t3, CacheDisabledBit, 1, FlagBit(bitmap, CacheDisabled));
    t4
  }

  /** The flag fields of a 1 GiB / 2 MiB entry set from a bitmap, as the map and modify functions do */
  function SetPageFlags(tmp: bv64, bitmap: bv64): (r: bv64)
    ensures r == ModifiedPage(tmp, bitmap)
  {
    var t4 := SetLowFlags(tmp, bitmap);
    var t5 := SetField(t4, GlobalBit, 1, FlagBit(bitmap, GlobalPage));
    var t6 := SetField(t5, LargeAttrIndexBit, 1, FlagBit(bitmap, AttrIndex));
    var t7 := SetField(t6, ExecuteDisableBit, 1, FlagBit(bitmap, ExecuteDisable));
    SetField(t7, AlwaysOneBit, 1, 1)
  }

  /** The flag fields of a 4 KiB entry set from a bitmap, as map and modify_flags do */
  function SetSmallFlags(tmp: bv64, bitmap: bv64): (r: bv64)
    ensures r == ModifiedSmall(tmp, bitmap)
  {
    var t4 := SetLowFlags(tmp, bitmap);
    var t5 := SetField(t4, SmallAttrIndexBit, 1, FlagBit(bitmap, AttrIndex));
    var t6 := SetField(t5, GlobalBit, 1, FlagBit(bitmap, GlobalPage));
    SetField(t6, ExecuteDisableBit, 1, FlagBit(bitmap, ExecuteDisable))
  }

  /** paging_x86_64_map_huge: map the 1 GiB page at base from entry i */
  method MapHuge(table: array<bv64>, i: nat, base: bv64, bitmap: bv64)
    requires i < table.Length
    modifies table
    ensures table[i] == HugeEntry(base, bitmap)
    ensures forall j :: 0 <= j < table.Length && j != i ==> table[j] == old(table[j])
  {
    var tmp := SetPageFlags(PtableClear, bitmap);
    tmp := SetField(tmp, HugeBaseLo, HugeBaseWidth, base >> HugePageBits);
    table[i] := tmp;
  }

  /** paging_x86_64_map_large: map the 2 MiB page at base from entry i */
  method MapLarge(table: array<bv64>, i: nat, base: bv64, bitmap: bv64)
    requires i < table.Length
    modifies table
    ensures table[i] == LargeEntry(base, bitmap)
    ensures forall j :: 0 <= j < table.Length && j != i ==> table[j] == old(table[j])
  {
    var tmp := SetPageFlags(PtableClear, bitmap);
    tmp := SetField(tmp, LargeBaseLo, LargeBaseWidth, base >> 21);
    table[i] := tmp;
  }

  /** paging_x86_64_map: map the 4 KiB page at base from entry i */
  method Map(table: array<bv64>, i: nat, base: bv64, bitmap: bv64)
    requires i < table.Length
    modifies table
    ensures table[i] == SmallEntry(base, bitmap)
    ensures forall j :: 0 <= j < table.Length && j != i ==> table[j] == old(table[j])
  {
    var tmp := SetSmallFlags(PtableClear, bitmap);
    tmp := SetField(tmp, SmallBaseLo, SmallBaseWidth, base >> 12);
    table[i] := tmp;
  }

  /** paging_x86_64_modify_flags_huge: new flags for the 1 GiB entry i */
  method ModifyFlagsHuge(table: array<bv64>, i: nat, bitmap: bv64)
    requires i < table.Length
    modifies table
    ensures table[i] == ModifiedPage(old(table[i]), bitmap)
    ensures forall j :: 0 <= j < table.Length && j != i ==> table[j] == old(table[j])
  {
    var tmp := table[i];
    tmp := SetPageFlags(tmp, bitmap);
    table[i] := tmp;
  }

  /** paging_x86_64_modify_flags_large: new flags for the 2 MiB entry i */
  method ModifyFlagsLarge(table: array<bv64>, i: nat, bitmap: bv64)
    requires i < table.Length
    modifies table
    ensures table[i] == ModifiedPage(old(table[i]), bitmap)
    ensures forall j :: 0 <= j < table.Length && j != i ==> table[j] == old(table[j])
  {
    var tmp := table[i];
    tmp := SetPageFlags(tmp, bitmap);
    table[i] := tmp;
  }

  /** paging_x86_64_modify_flags: new flags for the 4 KiB entry i */
  method ModifyFlags(table: array<bv64>, i: nat, bitmap: bv64)
    requires i < table.Length
    modifies table
    ensures table[i] == ModifiedSmall(old(table[i]), bitmap)
    ensures forall j :: 0 <= j < table.Length && j != i ==> table[j] == old(table[j])
  {
    var tmp := table[i];
    tmp := SetSmallFlags(tmp, bitmap);
    table[i] := tmp;
  }

  /** paging_unmap: entry i becomes the clear, not-present entry */
  method Unmap(table: array<bv64>, i: nat)
    requires i < table.Length
    modifies table
    ensures table[i] == PtableClear && !IsPresent(table[i])
    ensures forall j :: 0 <= j < table.Length && j != i ==> table[j] == old(table[j])
  {
    table[i] := PtableClear;
  }
}
