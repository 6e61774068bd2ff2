/**
 * The page tables as the processor reads them (Intel SDM volume 3A, section 4.5.4), against what paging_get_phys
 * computes.
 */
module Hardware {
  import opened Common
  import opened PageTables
  import opened PageForest
  import opened PageWrites
  import opened Paging
  import opened Translation

  /**
   * The frame of page `i` of a 2 MiB leaf. The processor takes the address from bits 51 to 21; bit 12 selects a memory
   * type, and a set bit among the reserved bits 20 to 13 faults.
   */
  function LargeFrame(frame: nat, i: nat): Option<nat> {
    if frame / 2 % 256 != 0 then None else Some(frame / 512 * 512 + i)
  }

  function HwLeaf(mem: Mem, e: nat, i: nat): Option<nat> {
    if !Present(e) then None
    else if Huge(e) then LargeFrame(FrameOf(e), i)
    else
      var l := Load(mem, FrameOf(e), i);
      if Present(l) then Some(FrameOf(l)) else None
  }

  function HwWalk(mem: Mem, root: nat, ix: seq<nat>): Option<nat>
    requires |ix| == 4
  {
    match Descend(mem, root, ix[..2])
    case None => None
    case Some(pd) => HwLeaf(mem, Load(mem, pd, ix[2]), ix[3])
  }

  function HwTranslate(mem: Mem, r: nat, a: nat): Option<nat> {
    match HwWalk(mem, r, Ix(a))
    case None => None
    case Some(f) => Some(f * PAGE + a % PAGE)
  }

  /** The walk ends in a 2 MiB leaf whose address is not 2 MiB-aligned. */
  predicate Skewed(mem: Mem, root: nat, ix: seq<nat>)
    requires |ix| == 4
  {
    var pd := Descend(mem, root, ix[..2]);
    pd.Some? && var e := Load(mem, pd.value, ix[2]); Present(e) && Huge(e) && FrameOf(e) % 512 != 0
  }

  lemma LargeFrameIff(frame: nat, i: nat)
    ensures LargeFrame(frame, i) == Some(frame + i) <==> frame % 512 == 0
  {
    assert frame == frame / 512 * 512 + frame % 512;
    assert frame % 512 == 0 ==> frame / 2 % 256 == 0;
  }

  /** The processor and paging_get_phys agree on a page if and only if its leaf is not a skewed one. */
  lemma AgreeIff(mem: Mem, root: nat, ix: seq<nat>)
    requires IxOk(ix)
    ensures HwWalk(mem, root, ix) == Walk(mem, root, ix) <==> !Skewed(mem, root, ix)
  {
    hide Present, Huge, FrameOf, LargeFrame, Descend;
    var pd := Descend(mem, root, ix[..2]);
    if pd.Some? { LargeFrameIff(FrameOf(Load(mem, pd.value, ix[2])), ix[3]); }
  }

  // ---------------------------------------------------------------- bits

  /**
   * What the processor reads for an address, from the bits of the words: nine bits of the address pick the word at each
   * level, bit 0 is the present bit, bits 51 to 12 are the next table or the page, and bit 7 of a page directory's word
   * ends the walk at 2 MiB.
   */
  function ReadBits(mem: Mem, root: nat, a: nat): Option<nat> {
    var e4 := Load(mem, root, a / 0x80_0000_0000 % 512);
    if e4 % 2 == 0 then None
    else
      var e3 := Load(mem, e4 / 4096 % 0x100_0000_0000, a / 0x4000_0000 % 512);
      if e3 % 2 == 0 then None
      else
        var e2 := Load(mem, e3 / 4096 % 0x100_0000_0000, a / 0x20_0000 % 512);
        if e2 % 2 == 0 then None
        else if e2 / 128 % 2 == 1 then LargeBits(e2, a)
        else
          var e1 := Load(mem, e2 / 4096 % 0x100_0000_0000, a / 4096 % 512);
          if e1 % 2 == 0 then None else Some(e1 / 4096 % 0x100_0000_0000 * 4096 + a % 4096)
  }

  /** A 2 MiB leaf: bits 51 to 21 are the address, and bits 20 to 13 have to be clear. */
  function LargeBits(e: nat, a: nat): Option<nat> {
    if e / 0x2000 % 256 != 0 then None else Some(e / 0x20_0000 % 0x8000_0000 * 0x20_0000 + a % 0x20_0000)
  }

  /** Above the page directories a present word is a link. */
  lemma UpperLevels(mem: Mem, F: Forest, root: nat, ix: seq<nat>)
    requires WF(mem, F) && root in F.roots && IxOk(ix)
    ensures var e4 := Load(mem, root, ix[0]);
            var e3 := Load(mem, FrameOf(e4), ix[1]);
            Descend(mem, root, ix[..2]) == if Present(e4) && Present(e3) then Some(FrameOf(e3)) else None
  {
    hide Present, Huge, FrameOf;
    var one, two := ix[..1], ix[..2];
    assert two[..1] == one && one[..0] == [] && one[0] == ix[0] && two[1] == ix[1];
    RootPath(mem, F, root);
    assert EntryOk(mem, F, root, ix[0]);
    DescendPath(mem, F, root, one);
    var t := Descend(mem, root, one);
    assert t.Some? ==> EntryOk(mem, F, t.value, ix[1]);
  }

  lemma LargeIs(e: nat, a: nat)
    ensures LargeBits(e, a) ==
            match LargeFrame(FrameOf(e), Ix(a)[3]) { case None => None case Some(f) => Some(f * PAGE + a % PAGE) }
  {
    hide Ix;
    var q := e / 4096;
    assert e / 0x2000 == q / 2 && e / 0x20_0000 == q / 512;
    Digits40(q);
    assert a % 0x20_0000 == a / 4096 % 512 * 4096 + a % 4096;
    PageDigit(a);
  }

  lemma PageDigit(a: nat)
    ensures Ix(a)[3] == a / 4096 % 512
  {}

  lemma Digits40(q: nat)
    ensures q % 0x100_0000_0000 / 2 % 256 == q / 2 % 256
    ensures q % 0x100_0000_0000 / 512 == q / 512 % 0x8000_0000
  {
    var h, l := q / 0x100_0000_0000, q % 0x100_0000_0000;
    var k, m := l / 2, l / 512;
    assert q == 2 * (h * 0x80_0000_0000 + k) + l % 2 == 512 * (h * 0x8000_0000 + m) + l % 512;
    Quotients(h * 0x80_0000_0000 + k, l % 2, h * 0x8000_0000 + m, l % 512);
    Remainders(h, k, m);
  }

  lemma Quotients(a: nat, b: nat, c: nat, d: nat)
    requires b < 2 && d < 512
    ensures (2 * a + b) / 2 == a && (512 * c + d) / 512 == c
  {}

  lemma Remainders(h: nat, k: nat, m: nat)
    requires m < 0x8000_0000
    ensures (h * 0x80_0000_0000 + k) % 256 == k % 256 && (h * 0x8000_0000 + m) % 0x8000_0000 == m
  {
    var g := h * 0x8000_0000;
    assert h * 0x80_0000_0000 + k == g * 256 + k;
    Mod256(g, k);
  }

  lemma Mod256(g: nat, k: nat)
    ensures (g * 256 + k) % 256 == k % 256
  {}

  /** The walk of the tables is the processor's reading of their bits, in every directory and for every address. */
  lemma TranslateIsBits(mem: Mem, F: Forest, root: nat, a: nat)
    requires WF(mem, F) && root in F.roots
    ensures HwTranslate(mem, root, a) == ReadBits(mem, root, a)
  {
    hide WF, Descend, LargeBits, LargeFrame;
    UpperLevels(mem, F, root, Ix(a));
    var pd := Descend(mem, root, Ix(a)[..2]);
    if pd.Some? { LargeIs(Load(mem, pd.value, Ix(a)[2]), a); }
  }

  /** Bit 2 of every word on the way lets user code through. */
  predicate UserBits(mem: Mem, root: nat, a: nat) {
    var e4 := Load(mem, root, a / 0x80_0000_0000 % 512);
    var e3 := Load(mem, e4 / 4096 % 0x100_0000_0000, a / 0x4000_0000 % 512);
    var e2 := Load(mem, e3 / 4096 % 0x100_0000_0000, a / 0x20_0000 % 512);
    e4 / 4 % 2 == 1 && e3 / 4 % 2 == 1 && e2 / 4 % 2 == 1
  }

  lemma UserIsBits(mem: Mem, root: nat, a: nat)
    requires UserLinks(mem, root, Ix(a)[..3])
    ensures UserBits(mem, root, a)
  {
    var ix := Ix(a);
    var one, two, three := ix[..1], ix[..2], ix[..3];
    assert three[..2] == two && two[..1] == one && one[..0] == [];
    hide Ix;
    assert UserLinks(mem, root, two) && UserLinks(mem, root, one);
    IxDigits(a);
  }

  lemma IxDigits(a: nat)
    ensures Ix(a)[0] == a / 0x80_0000_0000 % 512 && Ix(a)[1] == a / 0x4000_0000 % 512
    ensures Ix(a)[2] == a / 0x20_0000 % 512 && Ix(a)[3] == a / 4096 % 512
  {}

  /** The word paging_map writes: the physical address, the flags and the present bit, added up. */
  lemma MapWord(phys: nat, flags: nat)
    requires phys % 4096 == 0
    ensures MakeEntry(phys / PAGE, OrPresent(flags)) == phys + flags + if flags % 2 == 0 then 1 else 0
  {}

  /** After a successful paging_map both read the page as the frame given. */
  lemma MapExact(mem: Mem, F: Forest, root: nat, virt: nat, phys: nat, flags: nat)
    requires WF(mem, F) && root in F.roots && Mappable(virt, phys) && phys < FRAMES * PAGE && IsFlags(flags)
    requires EntryAt(mem, root, Ix(virt), 3, MakeEntry(phys / PAGE, OrPresent(flags)))
    ensures HwTranslate(mem, root, virt) == Some(phys) == Translate(mem, root, virt)
    ensures ReadBits(mem, root, virt) == Some(phys)
  {
    hide WF, Present, Huge, FrameOf, Ix, OrPresent, MakeEntry, Walk, HwWalk, ReadBits;
    TranslateIsBits(mem, F, root, virt);
    var ix := Ix(virt);
    OrPresentFlags(flags);
    MakeEntryFields(phys / PAGE, OrPresent(flags));
    WalkViaTable(mem, F, root, ix);
    SmallNotSkewed(mem, root, ix);
    AgreeIff(mem, root, ix);
  }

  lemma SmallNotSkewed(mem: Mem, root: nat, ix: seq<nat>)
    requires IxOk(ix) && Descend(mem, root, ix[..3]).Some?
    ensures !Skewed(mem, root, ix)
  {
    hide Present, Huge, FrameOf;
    assert ix[..3][..2] == ix[..2] && ix[..3][2] == ix[2];
  }

  /** How the processor reads the region of a successful paging_map_huge, in every directory it shows in. */
  lemma HugeRead(mem: Mem, F: Forest, root: nat, virt: nat, phys: nat, flags: nat, r: nat, a: nat)
    requires WF(mem, F) && UpperLinked(mem, F.roots) && root in F.roots && r in F.roots
    requires Mappable(virt, phys) && phys < FRAMES * PAGE && IsFlags(flags)
    requires EntryAt(mem, root, Ix(virt), 2, MakeEntry(phys / PAGE, OrHuge(OrPresent(flags))))
    requires Canonical(a) && a / REGION == virt / REGION && Shows(r, root, virt)
    ensures HwTranslate(mem, r, a) == if phys / (2 * PAGE) % 256 != 0 then None
              else Some(phys / REGION * REGION + a % REGION)
    ensures Translate(mem, r, a) == Some(phys + a % REGION)
  {
    hide WF, UpperLinked, Present, Huge, FrameOf, Ix, OrPresent, OrHuge, MakeEntry, Descend;
    var ix := Ix(virt);
    OrPresentFlags(flags);
    OrHugeFlags(OrPresent(flags));
    MakeEntryFields(phys / PAGE, OrHuge(OrPresent(flags)));
    SameRegion(a, virt);
    UpperHalfIndex(virt);
    SameDirectory(mem, F, root, r, Ix(a), ix);
    HugeOffset(a);
    LargeAddress(phys, Ix(a)[3], a);
  }

  lemma SameDirectory(mem: Mem, F: Forest, root: nat, r: nat, ax: seq<nat>, ix: seq<nat>)
    requires WF(mem, F) && UpperLinked(mem, F.roots) && root in F.roots && r in F.roots
    requires IxOk(ax) && IxOk(ix) && ax[..3] == ix[..3] && Affects(r, root, ix)
    ensures Descend(mem, r, ax[..2]) == Descend(mem, root, ix[..2]) && ax[2] == ix[2]
  {
    hide WF, UpperLinked, Present, Huge, FrameOf, Descend;
    assert ax[..2] == ax[..3][..2] == ix[..3][..2] == ix[..2] && ax[2] == ax[..3][2] == ix[..3][2] == ix[2];
    if r != root {
      UpperShared(mem, F, r, ix[..2]);
      UpperShared(mem, F, root, ix[..2]);
    }
  }

  lemma LargeAddress(phys: nat, i: nat, a: nat)
    requires phys % PAGE == 0 && a % REGION == i * PAGE + a % PAGE
    ensures phys / PAGE / 2 % 256 == phys / (2 * PAGE) % 256
    ensures (phys / PAGE / 512 * 512 + i) * PAGE + a % PAGE == phys / REGION * REGION + a % REGION
    ensures (phys / PAGE + i) * PAGE + a % PAGE == phys + a % REGION
  {
    assert phys / PAGE / 512 == phys / REGION;
  }

  /**
   * The call asks for `virt` to translate to `phys`, but checks 4 KiB alignment only: the processor does so if and only
   * if both lie equally far into their 2 MiB regions, at the start or one page in. One page in, the odd address bit is
   * read as the memory type.
   */
  lemma HugeExactIff(mem: Mem, F: Forest, root: nat, virt: nat, phys: nat, flags: nat)
    requires WF(mem, F) && UpperLinked(mem, F.roots) && root in F.roots
    requires Mappable(virt, phys) && phys < FRAMES * PAGE && IsFlags(flags)
    requires EntryAt(mem, root, Ix(virt), 2, MakeEntry(phys / PAGE, OrHuge(OrPresent(flags))))
    ensures HwTranslate(mem, root, virt) == Some(phys) <==> virt % REGION == phys % REGION < 2 * PAGE
  {
    hide WF, UpperLinked, Ix, OrPresent, OrHuge, MakeEntry, HwTranslate, EntryAt, Translate;
    HugeRead(mem, F, root, virt, phys, flags, root, virt);
    AlignedIff(virt, phys);
  }

  lemma AlignedIff(virt: nat, phys: nat)
    requires virt % PAGE == 0 && phys % PAGE == 0
    ensures phys % REGION == 0 ==> phys / (2 * PAGE) % 256 == 0 && phys / REGION * REGION == phys
    ensures phys / (2 * PAGE) % 256 == 0 <==> phys % REGION < 2 * PAGE
    ensures phys / REGION * REGION + virt % REGION == phys <==> virt % REGION == phys % REGION
  {
    var q := phys / PAGE;
    assert phys == q * PAGE && phys / (2 * PAGE) == q / 2 && phys / REGION == q / 512;
    assert q == q / 512 * 512 + q % 512;
    OddPage(q);
  }

  lemma OddPage(q: nat)
    ensures q / 2 % 256 == 0 <==> q % 512 < 2
    ensures q * PAGE % REGION == q % 512 * PAGE
  {
    assert q % 512 == q / 2 % 256 * 2 + q % 2;
  }

  /** The processor and paging_get_phys agree on the region if and only if the physical address is 2 MiB-aligned. */
  lemma HugeAgreesIff(mem: Mem, F: Forest, root: nat, virt: nat, phys: nat, flags: nat)
    requires WF(mem, F) && UpperLinked(mem, F.roots) && root in F.roots
    requires Mappable(virt, phys) && phys < FRAMES * PAGE && IsFlags(flags)
    requires EntryAt(mem, root, Ix(virt), 2, MakeEntry(phys / PAGE, OrHuge(OrPresent(flags))))
    ensures phys % REGION == 0 <==>
              forall a: nat :: Canonical(a) && a / REGION == virt / REGION ==>
                  HwTranslate(mem, root, a) == Translate(mem, root, a)
  {
    hide WF, UpperLinked, Ix, OrPresent, OrHuge, MakeEntry, HwTranslate, EntryAt, Translate;
    HugeRead(mem, F, root, virt, phys, flags, root, virt);
    AlignedIff(0, phys);
    if phys % REGION == 0 {
      forall a: nat | Canonical(a) && a / REGION == virt / REGION
        ensures HwTranslate(mem, root, a) == Translate(mem, root, a)
      {
        HugeRead(mem, F, root, virt, phys, flags, root, a);
      }
    }
  }

  /** Mapping the second region to frame 1 makes the processor read frame 0; mapping it to frame 2 makes it fault. */
  lemma SkewedRegion(mem: Mem, F: Forest, root: nat, phys: nat, flags: nat)
    requires WF(mem, F) && UpperLinked(mem, F.roots) && root in F.roots && IsFlags(flags)
    requires (phys == PAGE || phys == 2 * PAGE)
    requires EntryAt(mem, root, Ix(REGION), 2, MakeEntry(phys / PAGE, OrHuge(OrPresent(flags))))
    ensures HwTranslate(mem, root, REGION) == (if phys == PAGE then Some(0) else None)
    ensures Translate(mem, root, REGION) == Some(phys)
  {
    hide WF, UpperLinked, Ix, OrPresent, OrHuge, MakeEntry, HwTranslate, EntryAt, Translate;
    HugeRead(mem, F, root, REGION, phys, flags, root, REGION);
  }
}
