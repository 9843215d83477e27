/** Two-level page tables of student-distrib/paging.c (32-bit paging, section 4.3 of the Intel SDM, Vol. 3A). */
module Paging {
  import opened Machine

  const ENTRIES := 0x400
  const PAGE := 0x1000
  const LARGE_PAGE := 0x400000
  const TABLE_BASE: Word32 := 0xC000000
  const KERNEL_ADDR: Word32 := 0x400000
  const VIDEO_ADDR: Word32 := 0xB8000
  const VIDMAP_VIRT: Word32 := 0x8800000

  function DirIndex(a: Word32): (i: nat)
    ensures i < ENTRIES
  {
    a / LARGE_PAGE
  }

  function TableIndex(a: Word32): (i: nat)
    ensures i < ENTRIES
  {
    a / PAGE % ENTRIES
  }

  predicate Present(e: Word32) {
    e % 2 == 1
  }

  predicate Large(e: Word32) {
    e / 0x80 % 2 == 1
  }

  /** Bit 1: writes are allowed. */
  predicate Writable(e: Word32) {
    e / 2 % 2 == 1
  }

  /** Bit 2: user code is let in. */
  predicate ForUser(e: Word32) {
    e / 4 % 2 == 1
  }

  /** The entry with its low 12 bits cleared. */
  function Frame(e: Word32): (f: Word32)
    ensures f % PAGE == 0
  {
    e - e % PAGE
  }

  /** The entry with its low 22 bits cleared. */
  function LargeFrame(e: Word32): Word32 {
    e - e % LARGE_PAGE
  }

  function Bit(b: bool, value: Word32): Word32 {
    if b then value else 0
  }

  /** The page directory and the 4 MB area that holds one page table per directory slot. */
  datatype Tables = Tables(dir: seq<Word32>, area: seq<Word32>)

  /** A present small-page slot `i` points at table `i` of the area, so no two slots share a table. */
  ghost predicate WellFormed(t: Tables) {
    && |t.dir| == ENTRIES
    && |t.area| == ENTRIES * ENTRIES
    && forall i :: 0 <= i < ENTRIES && Present(t.dir[i]) && !Large(t.dir[i]) ==> Frame(t.dir[i]) == TABLE_BASE + PAGE * i
  }

  function TableEntry(t: Tables, i: nat, j: nat): Word32
    requires |t.area| == ENTRIES * ENTRIES && i < ENTRIES && j < ENTRIES
  {
    t.area[ENTRIES * i + j]
  }

  /** What the paging hardware makes of a linear address. */
  function Translate(t: Tables, a: Word32): Option<Word32>
    requires |t.dir| == ENTRIES && |t.area| == ENTRIES * ENTRIES
  {
    var e := t.dir[DirIndex(a)];
    if !Present(e) then None
    else if Large(e) then Some(LargeFrame(e) + a % LARGE_PAGE)
    else
      var p := TableEntry(t, DirIndex(a), TableIndex(a));
      if Present(p) then Some(Frame(p) + a % PAGE) else None
  }

  datatype Rights = Rights(user: bool, write: bool)

  const KERNEL_RIGHTS := Rights(false, true)
  const USER_RIGHTS := Rights(true, true)

  /** What the paging hardware allows at a mapped address: both levels must agree to user access and to writes. */
  function RightsAt(t: Tables, a: Word32): Rights
    requires |t.dir| == ENTRIES && |t.area| == ENTRIES * ENTRIES
  {
    var e := t.dir[DirIndex(a)];
    if Large(e) then Rights(ForUser(e), Writable(e))
    else
      var p := TableEntry(t, DirIndex(a), TableIndex(a));
      Rights(ForUser(e) && ForUser(p), Writable(e) && Writable(p))
  }

  /** map_page refuses exactly these calls. */
  predicate Refuses(t: Tables, phys: Word32, virt: Word32, large: bool, remap: bool)
    requires |t.dir| == ENTRIES && |t.area| == ENTRIES * ENTRIES
  {
    || phys == 0
    || virt == 0
    || (&& !remap
        && Present(t.dir[DirIndex(virt)])
        && (large || Large(t.dir[DirIndex(virt)]) || Present(TableEntry(t, DirIndex(virt), TableIndex(virt)))))
  }

  /** Without `remap` a call fails on a null address, on a page already mapped, and for 4 MB on any entry already there. */
  lemma RefusesExactly(t: Tables, phys: Word32, virt: Word32, large: bool, remap: bool)
    requires WellFormed(t)
    ensures Refuses(t, phys, virt, large, remap)
       <==> phys == 0 || virt == 0 || (!remap && if large then Present(t.dir[virt / 0x400000]) else Translate(t, virt).Some?)
  {
  }

  /** What a successful map_page leaves at address `a`. */
  function Remapped(t: Tables, phys: Word32, virt: Word32, large: bool, remap: bool, a: Word32): Option<Word32>
    requires |t.dir| == ENTRIES && |t.area| == ENTRIES * ENTRIES
  {
    if DirIndex(a) != DirIndex(virt) then Translate(t, a)
    else if large then Some(LargeFrame(phys) + a % LARGE_PAGE)
    else if a / PAGE == virt / PAGE then Some(Frame(phys) + a % PAGE)
    else if remap || !Present(t.dir[DirIndex(virt)]) then None
    else Translate(t, a)
  }

  /** The rights a successful map_page leaves at a mapped address `a`: a table already there limits those asked for. */
  function Regranted(t: Tables, virt: Word32, large: bool, asked: Rights, remap: bool, a: Word32): Rights
    requires |t.dir| == ENTRIES && |t.area| == ENTRIES * ENTRIES
  {
    var e := t.dir[DirIndex(virt)];
    if DirIndex(a) != DirIndex(virt) then RightsAt(t, a)
    else if large then asked
    else if a / PAGE != virt / PAGE then RightsAt(t, a)
    else if remap || !Present(e) then asked
    else Rights(asked.user && ForUser(e), asked.write && Writable(e))
  }

  function Flags(large: bool, user: bool, write: bool): (f: nat)
    ensures f < 0x100 && f % 2 == 1
    ensures (f / 2 % 2 == 1 <==> write) && (f / 4 % 2 == 1 <==> user) && (f / 0x80 % 2 == 1 <==> large)
  {
    Bit(large, 0x80) + Bit(user, 4) + Bit(write, 2) + 1
  }

  /** A directory or table entry for `frame`: present, plus the size, user and write bits asked for. */
  function Entry(frame: Word32, large: bool, user: bool, write: bool): (e: Word32)
    requires frame % PAGE == 0
    ensures Present(e) && Large(e) == large && ForUser(e) == user && Writable(e) == write
    ensures Frame(e) == frame && LargeFrame(e) == LargeFrame(frame)
  {
    var flags := Flags(large, user, write);
    var q := frame / PAGE;
    FlagBits(q, flags);
    FlagsKeepLargeFrame(q, flags);
    frame + flags
  }

  /** The entries of the kernel page, of a video page and of the vidmap page, bit by bit. */
  lemma EntryBits()
    ensures Entry(0x400000, true, false, true) == 0x400083
    ensures Entry(0xB8000, false, false, true) == 0xB8003 && Entry(0xB8000, false, true, true) == 0xB8007
  {
  }

  /** Flags below bit 12 do not disturb a page-aligned frame, nor it them. */
  lemma FlagBits(q: nat, flags: nat)
    requires flags < PAGE
    ensures (PAGE * q + flags) % PAGE == flags
    ensures (PAGE * q + flags) % 2 == flags % 2
    ensures (PAGE * q + flags) / 2 % 2 == flags / 2 % 2
    ensures (PAGE * q + flags) / 4 % 2 == flags / 4 % 2
    ensures (PAGE * q + flags) / 0x80 % 2 == flags / 0x80 % 2
  {
    LowBit(0x800 * q, flags);
    LowBit(0x400 * q, flags / 2);
    LowBit(0x200 * q, flags / 4);
    LowBit(0x10 * q, flags / 0x80);
    HighPart(0x20 * q, flags);
  }

  lemma LowBit(half: nat, flags: nat)
    ensures (2 * half + flags) % 2 == flags % 2
  {
  }

  lemma HighPart(q: nat, flags: nat)
    ensures (0x80 * q + flags) / 0x80 == q + flags / 0x80
  {
  }

  lemma FlagsKeepLargeFrame(q: nat, flags: nat)
    requires flags < PAGE && PAGE * q + flags < 0x1_0000_0000
    ensures PAGE * q + flags - (PAGE * q + flags) % LARGE_PAGE == PAGE * q - PAGE * q % LARGE_PAGE
  {
    var big, small := q / ENTRIES, q % ENTRIES;
    assert PAGE * q == LARGE_PAGE * big + PAGE * small;
  }

  /** `area` with table `i` emptied. */
  function Emptied(area: seq<Word32>, i: nat): (r: seq<Word32>)
    requires |area| == ENTRIES * ENTRIES && i < ENTRIES
    ensures |r| == |area|
    ensures forall k :: 0 <= k < |r| ==> r[k] == if ENTRIES * i <= k < ENTRIES * i + ENTRIES then 0 else area[k]
  {
    seq(|area|, k requires 0 <= k < |area| => if ENTRIES * i <= k < ENTRIES * i + ENTRIES then 0 else area[k])
  }

  /** The rights at every mapped address are as asked for, or as before. */
  ghost predicate Grants(t: Tables, t': Tables, virt: Word32, large: bool, asked: Rights, remap: bool)
    requires WellFormed(t) && WellFormed(t')
  {
    forall a: Word32 :: Translate(t', a).Some? ==> RightsAt(t', a) == Regranted(t, virt, large, asked, remap, a)
  }

  /** The effect of a translation change that is confined to one directory slot. */
  ghost predicate Remaps(t: Tables, t': Tables, phys: Word32, virt: Word32, large: bool, remap: bool)
    requires WellFormed(t) && WellFormed(t')
  {
    && (forall a: Word32 :: Translate(t', a) == Remapped(t, phys, virt, large, remap, a))
    && (forall i :: 0 <= i < ENTRIES && i != DirIndex(virt) ==> t'.dir[i] == t.dir[i])
  }

  /** The 4 MB region at `base` is mapped one to one. */
  ghost predicate OneToOne(t: Tables, base: Word32)
    requires WellFormed(t) && base + LARGE_PAGE <= 0x1_0000_0000
  {
    forall a: Word32 :: base <= a < base + LARGE_PAGE ==> Translate(t, a) == Some(a)
  }

  /** Without `remap`, a successful call takes no mapped address away and maps the page asked for, byte by byte. */
  lemma NothingDisturbed(t: Tables, t': Tables, phys: Word32, virt: Word32, large: bool, a: Word32)
    requires WellFormed(t) && WellFormed(t') && !Refuses(t, phys, virt, large, false)
    requires Remaps(t, t', phys, virt, large, false)
    ensures Translate(t, a).Some? ==> Translate(t', a) == Translate(t, a)
    ensures !large && phys % 0x1000 == 0 && a / 0x1000 == virt / 0x1000 ==> Translate(t', a) == Some(phys + a % 0x1000)
    ensures large && phys % 0x400000 == 0 && a / 0x400000 == virt / 0x400000 ==> Translate(t', a) == Some(phys + a % 0x400000)
  {
    SamePage(a, virt);
  }

  /** A page of a region mapped one to one is mapped again only with `remap`. */
  lemma OnlyByRemap(t: Tables, phys: Word32, virt: Word32, large: bool, remap: bool)
    requires WellFormed(t) && Translate(t, virt).Some? && !Refuses(t, phys, virt, large, remap)
    ensures remap
  {
  }

  /** The address at which a region mapped anew is no longer mapped one to one. */
  lemma RegionMoves(t: Tables, phys: Word32, virt: Word32, large: bool, base: Word32) returns (a: Word32)
    requires WellFormed(t) && base % LARGE_PAGE == 0 && base + LARGE_PAGE <= 0x1_0000_0000
    requires DirIndex(virt) == DirIndex(base) && !(large && LargeFrame(phys) == base)
    ensures base <= a < base + LARGE_PAGE && Remapped(t, phys, virt, large, true, a) != Some(a)
  {
    a := if large || virt / PAGE != base / PAGE then base else base + PAGE;
    assert DirIndex(a) == DirIndex(base);
  }

  /**
   * A region mapped one to one, such as the one the page tables are reached through once paging is on, stays so if and
   * only if the call is for another region or maps this one to itself.
   */
  lemma RegionStaysExactly(t: Tables, t': Tables, phys: Word32, virt: Word32, large: bool, remap: bool, base: Word32)
    requires WellFormed(t) && WellFormed(t') && base % LARGE_PAGE == 0 && base + LARGE_PAGE <= 0x1_0000_0000
    requires OneToOne(t, base) && !Refuses(t, phys, virt, large, remap) && Remaps(t, t', phys, virt, large, remap)
    ensures OneToOne(t', base) <==> DirIndex(virt) != DirIndex(base) || (large && LargeFrame(phys) == base)
  {
    if DirIndex(virt) == DirIndex(base) && !(large && LargeFrame(phys) == base) {
      assert Translate(t, virt) == Some(virt);
      OnlyByRemap(t, phys, virt, large, remap);
      var a := RegionMoves(t, phys, virt, large, base);
      assert Translate(t', a) != Some(a);
    }
  }

  lemma FrameOfFrame(phys: Word32)
    ensures LargeFrame(Frame(phys)) == LargeFrame(phys)
  {
    FlagsKeepLargeFrame(phys / PAGE, phys % PAGE);
  }

  lemma LargeMappedAt(t: Tables, t': Tables, phys: Word32, virt: Word32, e: Word32, remap: bool, a: Word32)
    requires |t.dir| == ENTRIES && |t.area| == ENTRIES * ENTRIES && t' == t.(dir := t.dir[DirIndex(virt) := e])
    requires Present(e) && Large(e) && LargeFrame(e) == LargeFrame(phys)
    ensures Translate(t', a) == Remapped(t, phys, virt, true, remap, a)
  {
  }

  lemma LargeMapped(t: Tables, t': Tables, phys: Word32, virt: Word32, e: Word32, remap: bool)
    requires WellFormed(t) && t' == t.(dir := t.dir[DirIndex(virt) := e])
    requires Present(e) && Large(e) && LargeFrame(e) == LargeFrame(phys)
    ensures WellFormed(t') && Remaps(t, t', phys, virt, true, remap)
    ensures Grants(t, t', virt, true, Rights(ForUser(e), Writable(e)), remap)
  {
    forall a: Word32 ensures Translate(t', a) == Remapped(t, phys, virt, true, remap, a) {
      LargeMappedAt(t, t', phys, virt, e, remap, a);
    }
  }

  /** Addresses of one directory slot differ in their table index or their page. */
  lemma SamePage(a: Word32, b: Word32)
    ensures DirIndex(a) == DirIndex(b) && TableIndex(a) == TableIndex(b) <==> a / PAGE == b / PAGE
  {
  }

  /** Table slots of different directory slots do not meet. */
  lemma SlotsApart(i: nat, j: nat, k: nat)
    requires i < ENTRIES && j < ENTRIES && k < ENTRIES && i != j
    ensures !(ENTRIES * j <= ENTRIES * i + k < ENTRIES * j + ENTRIES)
  {
  }

  /** `t'` is `t` with directory slot and table of `virt` holding just the one page. */
  ghost predicate HasNewTable(t: Tables, t': Tables, phys: Word32, virt: Word32, user: bool, write: bool) {
    && |t.dir| == |t'.dir| == ENTRIES && |t.area| == |t'.area| == ENTRIES * ENTRIES
    && t'.dir == t.dir[DirIndex(virt) := Entry(TABLE_BASE + PAGE * DirIndex(virt), false, user, write)]
    && t'.area == Emptied(t.area, DirIndex(virt))
                    [ENTRIES * DirIndex(virt) + TableIndex(virt) := Entry(Frame(phys), false, user, write)]
  }

  lemma NewTableAt(t: Tables, t': Tables, phys: Word32, virt: Word32, user: bool, write: bool, remap: bool, a: Word32)
    requires HasNewTable(t, t', phys, virt, user, write) && (remap || !Present(t.dir[DirIndex(virt)]))
    ensures Translate(t', a) == Remapped(t, phys, virt, false, remap, a)
  {
    SamePage(a, virt);
    if DirIndex(a) != DirIndex(virt) {
      SlotsApart(DirIndex(a), DirIndex(virt), TableIndex(a));
      assert t'.dir[DirIndex(a)] == t.dir[DirIndex(a)];
      assert TableEntry(t', DirIndex(a), TableIndex(a)) == TableEntry(t, DirIndex(a), TableIndex(a));
    }
  }

  lemma NewTable(t: Tables, t': Tables, phys: Word32, virt: Word32, user: bool, write: bool, remap: bool)
    requires WellFormed(t) && (remap || !Present(t.dir[DirIndex(virt)]))
    requires HasNewTable(t, t', phys, virt, user, write)
    ensures WellFormed(t') && Remaps(t, t', phys, virt, false, remap)
    ensures Grants(t, t', virt, false, Rights(user, write), remap)
  {
    forall a: Word32 ensures Translate(t', a) == Remapped(t, phys, virt, false, remap, a) {
      NewTableAt(t, t', phys, virt, user, write, remap, a);
    }
    forall a: Word32 | Translate(t', a).Some?
      ensures RightsAt(t', a) == Regranted(t, virt, false, Rights(user, write), remap, a)
    {
      NewTableRights(t, t', phys, virt, user, write, remap, a);
    }
  }

  lemma NewTableRights(t: Tables, t': Tables, phys: Word32, virt: Word32, user: bool, write: bool, remap: bool, a: Word32)
    requires HasNewTable(t, t', phys, virt, user, write) && (remap || !Present(t.dir[DirIndex(virt)]))
    requires Translate(t', a).Some?
    ensures RightsAt(t', a) == Regranted(t, virt, false, Rights(user, write), remap, a)
  {
    SamePage(a, virt);
    NewTableAt(t, t', phys, virt, user, write, remap, a);
    if DirIndex(a) != DirIndex(virt) {
      SlotsApart(DirIndex(a), DirIndex(virt), TableIndex(a));
      assert t'.dir[DirIndex(a)] == t.dir[DirIndex(a)];
      assert TableEntry(t', DirIndex(a), TableIndex(a)) == TableEntry(t, DirIndex(a), TableIndex(a));
    }
  }

  ghost predicate HasNewEntry(t: Tables, t': Tables, phys: Word32, virt: Word32, user: bool, write: bool) {
    && |t.dir| == |t'.dir| == ENTRIES && |t.area| == |t'.area| == ENTRIES * ENTRIES
    && t'.dir == t.dir
    && t'.area == t.area[ENTRIES * DirIndex(virt) + TableIndex(virt) := Entry(Frame(phys), false, user, write)]
  }

  lemma NewEntryAt(t: Tables, t': Tables, phys: Word32, virt: Word32, user: bool, write: bool, a: Word32)
    requires HasNewEntry(t, t', phys, virt, user, write)
    requires Present(t.dir[DirIndex(virt)]) && !Large(t.dir[DirIndex(virt)])
    ensures Translate(t', a) == Remapped(t, phys, virt, false, false, a)
  {
    SamePage(a, virt);
    if DirIndex(a) != DirIndex(virt) {
      SlotsApart(DirIndex(a), DirIndex(virt), TableIndex(a));
      assert TableEntry(t', DirIndex(a), TableIndex(a)) == TableEntry(t, DirIndex(a), TableIndex(a));
    }
  }

  lemma EntryAdded(t: Tables, t': Tables, phys: Word32, virt: Word32, user: bool, write: bool)
    requires WellFormed(t)
    requires Present(t.dir[DirIndex(virt)]) && !Large(t.dir[DirIndex(virt)])
    requires HasNewEntry(t, t', phys, virt, user, write)
    ensures WellFormed(t') && Remaps(t, t', phys, virt, false, false)
    ensures Grants(t, t', virt, false, Rights(user, write), false)
  {
    forall a: Word32 ensures Translate(t', a) == Remapped(t, phys, virt, false, false, a) {
      NewEntryAt(t, t', phys, virt, user, write, a);
    }
    forall a: Word32 ensures RightsAt(t', a) == Regranted(t, virt, false, Rights(user, write), false, a) {
      NewEntryRights(t, t', phys, virt, user, write, a);
    }
  }

  lemma NewEntryRights(t: Tables, t': Tables, phys: Word32, virt: Word32, user: bool, write: bool, a: Word32)
    requires HasNewEntry(t, t', phys, virt, user, write)
    requires Present(t.dir[DirIndex(virt)]) && !Large(t.dir[DirIndex(virt)])
    ensures RightsAt(t', a) == Regranted(t, virt, false, Rights(user, write), false, a)
  {
    SamePage(a, virt);
    if DirIndex(a) != DirIndex(virt) {
      SlotsApart(DirIndex(a), DirIndex(virt), TableIndex(a));
      assert TableEntry(t', DirIndex(a), TableIndex(a)) == TableEntry(t, DirIndex(a), TableIndex(a));
    }
  }

  /** The address space after boot, built up in the order of paging_init. */
  function BootMap(videoPages: nat, vidmap: bool, tables: bool, a: Word32): Option<Word32> {
    if KERNEL_ADDR <= a < KERNEL_ADDR + LARGE_PAGE then Some(a)
    else if VIDEO_ADDR <= a < VIDEO_ADDR + videoPages * PAGE then Some(a)
    else if vidmap && VIDMAP_VIRT <= a < VIDMAP_VIRT + PAGE then Some(VIDEO_ADDR + (a - VIDMAP_VIRT))
    else if tables && TABLE_BASE <= a < TABLE_BASE + LARGE_PAGE then Some(a)
    else None
  }

  ghost predicate Boots(t: Tables, videoPages: nat, vidmap: bool, tables: bool)
    requires WellFormed(t)
  {
    forall a: Word32 :: Translate(t, a) == BootMap(videoPages, vidmap, tables, a)
  }

  predicate IsVidmap(a: Word32) {
    VIDMAP_VIRT <= a < VIDMAP_VIRT + PAGE
  }

  /** All that is mapped at boot is writable, and nothing but the vidmap page is for users. */
  ghost predicate BootRights(t: Tables)
    requires WellFormed(t)
  {
    forall a: Word32 :: Translate(t, a).Some? ==> RightsAt(t, a) == Rights(IsVidmap(a), true)
  }

  /** A page that user code is let in to exactly if it is the vidmap page keeps the rights of the others. */
  lemma BootRightsKept(t: Tables, t': Tables, phys: Word32, virt: Word32, large: bool, user: bool)
    requires WellFormed(t) && WellFormed(t') && BootRights(t) && !Refuses(t, phys, virt, large, false)
    requires Remaps(t, t', phys, virt, large, false) && Grants(t, t', virt, large, Rights(user, true), false)
    requires DirIndex(VIDMAP_VIRT) == DirIndex(virt) ==> user && virt == VIDMAP_VIRT && !large
    requires DirIndex(VIDMAP_VIRT) != DirIndex(virt) ==> !user
    requires Present(t.dir[DirIndex(virt)]) ==> Writable(t.dir[DirIndex(virt)])
    requires DirIndex(VIDMAP_VIRT) == DirIndex(virt) ==> !Present(t.dir[DirIndex(virt)])
    ensures BootRights(t')
  {
    forall a: Word32 | Translate(t', a).Some? ensures RightsAt(t', a) == Rights(IsVidmap(a), true) {
      assert Translate(t', a) == Remapped(t, phys, virt, large, false, a);
      assert IsVidmap(a) ==> a / PAGE == VIDMAP_VIRT / PAGE && DirIndex(a) == DirIndex(VIDMAP_VIRT);
    }
  }

  /** Mapping one page where nothing was adds just that page. */
  lemma SlotMapped(t: Tables, t': Tables, phys: Word32, virt: Word32, large: bool)
    requires WellFormed(t) && WellFormed(t') && !Present(t.dir[DirIndex(virt)])
    requires Remaps(t, t', phys, virt, large, false)
    ensures forall a: Word32 ::
              Translate(t', a) == (
                if large && DirIndex(a) == DirIndex(virt) then Some(LargeFrame(phys) + a % LARGE_PAGE)
                else if !large && a / PAGE == virt / PAGE then Some(Frame(phys) + a % PAGE)
                else Translate(t, a))
  {
    forall a: Word32 {
      SamePage(a, virt);
    }
  }

  /** The next video page finds either no table for its slot or a table without that page. */
  lemma VideoPageFits(t: Tables, k: nat, virt: Word32)
    requires WellFormed(t) && Boots(t, k, false, false) && k < 4 && virt == VIDEO_ADDR + k * PAGE
    ensures !Refuses(t, virt, virt, false, false)
    ensures k > 0 ==> Present(t.dir[DirIndex(virt)])
  {
    assert Translate(t, 0) == None;
    assert Translate(t, virt) == None;
    assert k > 0 ==> Translate(t, VIDEO_ADDR) == Some(VIDEO_ADDR);
  }

  lemma VideoTableIsWritable(t: Tables, k: nat, virt: Word32)
    requires WellFormed(t) && Boots(t, k, false, false) && BootRights(t) && k < 4 && virt == VIDEO_ADDR + k * PAGE
    requires k == 0 ==> !Present(t.dir[DirIndex(virt)])
    ensures Present(t.dir[DirIndex(virt)]) ==> Writable(t.dir[DirIndex(virt)])
  {
    assert k > 0 ==> Translate(t, VIDEO_ADDR) == Some(VIDEO_ADDR);
    assert k > 0 ==> RightsAt(t, VIDEO_ADDR).write;
  }

  lemma VideoPageMapped(t: Tables, t': Tables, k: nat, virt: Word32)
    requires WellFormed(t) && Boots(t, k, false, false) && k < 4 && virt == VIDEO_ADDR + k * PAGE
    requires WellFormed(t') && Remaps(t, t', virt, virt, false, false)
    ensures Boots(t', k + 1, false, false)
  {
    VideoPageFits(t, k, virt);
    forall a: Word32 ensures Translate(t', a) == BootMap(k + 1, false, false, a) {
      assert Translate(t, a) == BootMap(k, false, false, a);
    }
  }

  lemma KernelMapped(t: Tables, t': Tables)
    requires WellFormed(t) && WellFormed(t') && forall i :: 0 <= i < ENTRIES ==> t.dir[i] == 0
    requires Remaps(t, t', KERNEL_ADDR, KERNEL_ADDR, true, false)
    ensures Boots(t', 0, false, false)
  {
    SlotMapped(t, t', KERNEL_ADDR, KERNEL_ADDR, true);
  }

  lemma VidmapMapped(t: Tables, t': Tables)
    requires WellFormed(t) && WellFormed(t') && Boots(t, 4, false, false) && !Present(t.dir[DirIndex(VIDMAP_VIRT)])
    requires Remaps(t, t', VIDEO_ADDR, VIDMAP_VIRT, false, false)
    ensures Boots(t', 4, true, false)
  {
    SlotMapped(t, t', VIDEO_ADDR, VIDMAP_VIRT, false);
  }

  lemma TablesMapped(t: Tables, t': Tables)
    requires WellFormed(t) && WellFormed(t') && Boots(t, 4, true, false) && !Present(t.dir[DirIndex(TABLE_BASE)])
    requires Remaps(t, t', TABLE_BASE, TABLE_BASE, true, false)
    ensures Boots(t', 4, true, true)
  {
    SlotMapped(t, t', TABLE_BASE, TABLE_BASE, true);
  }

  class PageTables {
    const dir: array<Word32>
    const area: array<Word32>

    ghost function View(): Tables
      reads dir, area
    {
      Tables(dir[..], area[..])
    }

    ghost predicate Valid()
      reads dir, area
    {
      dir != area && WellFormed(View())
    }

    method ResolveVirtAddr(virt: Word32) returns (phys: Word32)
      requires Valid()
      ensures phys == match Translate(View(), virt) case Some(p) => p case None => 0
    {
      var entry := dir[virt / LARGE_PAGE];
      if !Present(entry) {
        return 0;
      }
      if Large(entry) {
        return LargeFrame(entry) + virt % LARGE_PAGE;
      }
      var table := Frame(entry);
      var page := area[(table + 4 * TableIndex(virt) - TABLE_BASE) / 4];
      if !Present(page) {
        return 0;
      }
      return Frame(page) + virt % PAGE;
    }

    method ClearTable(i: nat)
      requires area.Length == ENTRIES * ENTRIES && i < ENTRIES
      modifies area
      ensures area[..] == Emptied(old(area[..]), i)
    {
      var j := 0;
      while j < ENTRIES
        invariant 0 <= j <= ENTRIES
        invariant forall k :: 0 <= k < area.Length ==>
          area[k] == if ENTRIES * i <= k < ENTRIES * i + j then 0 else old(area[k])
      {
        area[ENTRIES * i + j] := 0;
        j := j + 1;
      }
    }

    /** Stores `entry` in slot `ti` of the table at address `table`, which is table `di` of the area. */
    method SetEntry(ghost di: nat, ti: nat, table: Word32, entry: Word32)
      requires area.Length == ENTRIES * ENTRIES && di < ENTRIES && ti < ENTRIES && table == TABLE_BASE + PAGE * di
      modifies area
      ensures area[..] == old(area[..])[ENTRIES * di + ti := entry]
    {
      area[(table + 4 * ti - TABLE_BASE) / 4] := entry;
    }

    method MapLarge(phys: Word32, virt: Word32, user: bool, write: bool, ghost remap: bool)
      requires Valid()
      modifies dir, area
      ensures Valid() && Remaps(old(View()), View(), phys, virt, true, remap)
      ensures Grants(old(View()), View(), virt, true, Rights(user, write), remap)
    {
      var entry := Entry(Frame(phys), true, user, write);
      dir[virt / LARGE_PAGE] := entry;
      FrameOfFrame(phys);
      LargeMapped(old(View()), View(), phys, virt, entry, remap);
    }

    method MapInNewTable(phys: Word32, virt: Word32, user: bool, write: bool, ghost remap: bool)
      requires Valid() && (remap || !Present(dir[DirIndex(virt)]))
      modifies dir, area
      ensures Valid() && Remaps(old(View()), View(), phys, virt, false, remap)
      ensures Grants(old(View()), View(), virt, false, Rights(user, write), remap)
    {
      var di := virt / LARGE_PAGE;
      var table := TABLE_BASE + PAGE * di;
      ClearTable(di);
      dir[di] := Entry(table, false, user, write);
      SetEntry(di, TableIndex(virt), table, Entry(Frame(phys), false, user, write));
      NewTable(old(View()), View(), phys, virt, user, write, remap);
    }

    method MapInTable(phys: Word32, virt: Word32, user: bool, write: bool) returns (r: int)
      requires Valid() && Present(dir[DirIndex(virt)]) && !Large(dir[DirIndex(virt)])
      modifies area
      ensures Valid()
      ensures r == if Present(TableEntry(old(View()), DirIndex(virt), TableIndex(virt))) then -1 else 0
      ensures r == -1 ==> View() == old(View())
      ensures r == 0 ==> Remaps(old(View()), View(), phys, virt, false, false)
      ensures r == 0 ==> Grants(old(View()), View(), virt, false, Rights(user, write), false)
    {
      var table := Frame(dir[virt / LARGE_PAGE]);
      var page := area[(table + 4 * TableIndex(virt) - TABLE_BASE) / 4];
      if Present(page) {
        return -1;
      }
      SetEntry(DirIndex(virt), TableIndex(virt), table, Entry(Frame(phys), false, user, write));
      EntryAdded(old(View()), View(), phys, virt, user, write);
      return 0;
    }

    method MapPage(phys: Word32, virt: Word32, large: bool, user: bool, write: bool, remap: bool) returns (r: int)
      requires Valid()
      modifies dir, area
      ensures Valid()
      ensures r == if Refuses(old(View()), phys, virt, large, remap) then -1 else 0
      ensures r == -1 ==> View() == old(View())
      ensures r == 0 ==> Remaps(old(View()), View(), phys, virt, large, remap)
      ensures r == 0 ==> Grants(old(View()), View(), virt, large, Rights(user, write), remap)
    {
      if phys == 0 || virt == 0 {
        return -1;
      }
      var entry := dir[virt / LARGE_PAGE];
      if !Present(entry) || remap {
        if large {
          MapLarge(phys, virt, user, write, remap);
        } else {
          MapInNewTable(phys, virt, user, write, remap);
        }
        return 0;
      }
      if large || Large(entry) {
        return -1;
      }
      r := MapInTable(phys, virt, user, write);
    }

    constructor ()
      ensures dir.Length == ENTRIES && area.Length == ENTRIES * ENTRIES && dir != area
      ensures fresh(dir) && fresh(area)
    {
      dir := new Word32[ENTRIES];
      area := new Word32[ENTRIES * ENTRIES];
    }

    method ClearDirectory()
      requires dir.Length == ENTRIES
      modifies dir
      ensures forall i :: 0 <= i < ENTRIES ==> dir[i] == 0
    {
      var i := 0;
      while i < ENTRIES
        invariant 0 <= i <= ENTRIES
        invariant forall k :: 0 <= k < i ==> dir[k] == 0
      {
        dir[i] := 0;
        i := i + 1;
      }
    }

    method MapVideoPages()
      requires Valid() && Boots(View(), 0, false, false) && BootRights(View()) && !Present(dir[0])
      modifies dir, area
      ensures Valid() && Boots(View(), 4, false, false) && BootRights(View())
      ensures forall i :: 0 < i < ENTRIES ==> dir[i] == old(dir[i])
    {
      var index := 0;
      while index <= 3
        invariant 0 <= index <= 4 && Valid() && Boots(View(), index, false, false) && BootRights(View())
        invariant index == 0 ==> !Present(dir[0])
        invariant forall i :: 0 < i < ENTRIES ==> dir[i] == old(dir[i])
      {
        var page := VIDEO_ADDR + index * PAGE;
        ghost var before := View();
        VideoPageFits(before, index, page);
        VideoTableIsWritable(before, index, page);
        var r := MapPage(page, page, false, false, true, false);
        VideoPageMapped(before, View(), index, page);
        BootRightsKept(before, View(), page, page, false, false);
        index := index + 1;
      }
    }

    method PagingInit()
      requires dir != area && dir.Length == ENTRIES && area.Length == ENTRIES * ENTRIES
      modifies dir, area
      ensures Valid() && Boots(View(), 4, true, true) && BootRights(View())
    {
      ClearDirectory();
      ghost var t0 := View();
      var r := MapPage(KERNEL_ADDR, KERNEL_ADDR, true, false, true, false);
      KernelMapped(t0, View());
      BootRightsKept(t0, View(), KERNEL_ADDR, KERNEL_ADDR, true, false);
      MapVideoPages();
      ghost var t1 := View();
      r := MapPage(VIDEO_ADDR, VIDMAP_VIRT, false, true, true, false);
      VidmapMapped(t1, View());
      BootRightsKept(t1, View(), VIDEO_ADDR, VIDMAP_VIRT, false, true);
      ghost var t2 := View();
      r := MapPage(TABLE_BASE, TABLE_BASE, true, false, true, false);
      TablesMapped(t2, View());
      BootRightsKept(t2, View(), TABLE_BASE, TABLE_BASE, true, false);
    }
  }
}
