/** Page-table entries as 64-bit words, and addresses as four table indices. */
module PageTables {

  // ---------------------------------------------------------------- entries

  const FRAMES: nat := 0x100_0000_0000          // 2^40 frames: bits 12..51 of an entry
  const PAGE: nat := 4096
  const ENTRIES: nat := 512
  const KERNEL_START: nat := 256

  predicate Present(e: nat) { e % 2 == 1 }
  predicate User(e: nat) { e / 4 % 2 == 1 }
  predicate Huge(e: nat) { e / 128 % 2 == 1 }

  /** entry & PAGE_FRAME_MASK, as a frame number. */
  function FrameOf(e: nat): nat { e / PAGE % FRAMES }

  /** Flag words leave the frame bits clear. */
  predicate IsFlags(flags: nat) { flags / PAGE % FRAMES == 0 }

  function OrPresent(e: nat): nat { if Present(e) then e else e + 1 }
  function OrUser(e: nat): nat { if User(e) then e else e + 4 }
  function OrHuge(e: nat): nat { if Huge(e) then e else e + 128 }

  /** frame address | flags */
  function MakeEntry(frame: nat, flags: nat): nat { frame * PAGE + flags }

  lemma MakeEntryFields(frame: nat, flags: nat)
    requires frame < FRAMES && IsFlags(flags)
    ensures FrameOf(MakeEntry(frame, flags)) == frame
    ensures Present(MakeEntry(frame, flags)) == Present(flags)
    ensures Huge(MakeEntry(frame, flags)) == Huge(flags)
  {
    MakeEntryFrame(frame, flags);
    MakeEntryBits(frame, flags);
  }

  /** Nothing is lost: an entry is its frame's address and its flags. */
  lemma EntryParts(frame: nat, flags: nat)
    requires frame < FRAMES && IsFlags(flags)
    ensures var e := MakeEntry(frame, flags);
            e == FrameOf(e) * PAGE + flags && e % PAGE == flags % PAGE && User(e) == User(flags)
  {
    MakeEntryFrame(frame, flags);
    assert MakeEntry(frame, flags) / 4 == frame * 1024 + flags / 4;
    Parity(flags / 4, frame * 512);
    LowPage(frame, flags);
  }

  lemma LowPage(k: nat, e: nat)
    ensures (k * PAGE + e) % PAGE == e % PAGE
  {}

  lemma MakeEntryFrame(frame: nat, flags: nat)
    requires frame < FRAMES && IsFlags(flags)
    ensures FrameOf(MakeEntry(frame, flags)) == frame
  {
    assert (frame * PAGE + flags) / PAGE == frame + flags / PAGE;
    var h := flags / PAGE / FRAMES;
    assert flags / PAGE == FRAMES * h;
    assert (frame + FRAMES * h) % FRAMES == frame;
  }

  lemma MakeEntryBits(frame: nat, flags: nat)
    ensures Present(MakeEntry(frame, flags)) == Present(flags)
    ensures Huge(MakeEntry(frame, flags)) == Huge(flags)
  {
    assert MakeEntry(frame, flags) == flags + 256 * (frame * 16);
    LowBits(flags, frame * 16);
  }

  /** Multiples of 256 do not reach the flag bits used here. */
  lemma LowBits(e: nat, k: nat)
    ensures (e + 256 * k) % 2 == e % 2 && (e + 256 * k) / 128 % 2 == e / 128 % 2
  {
    Parity(e, 128 * k);
    var q, r := e / 128, e % 128;
    assert e + 256 * k == 128 * (q + 2 * k) + r;
    Quotient(q + 2 * k, r);
    Parity(q, k);
  }

  lemma Parity(a: nat, b: nat)
    ensures (a + 2 * b) % 2 == a % 2
  {}

  lemma Quotient(q: nat, r: nat)
    requires r < 128
    ensures (128 * q + r) / 128 == q
  {}

  lemma PageQuotient(e: nat)
    ensures e / PAGE == e / 128 / 32
  {}

  lemma EvenQuotient(q: nat)
    requires q % 2 == 0
    ensures (q + 1) / 32 == q / 32 && (q + 1) % 2 == 1
  {}

  lemma OrPresentFlags(flags: nat)
    requires IsFlags(flags)
    ensures IsFlags(OrPresent(flags)) && Present(OrPresent(flags)) && Huge(OrPresent(flags)) == Huge(flags)
  {
    if !Present(flags) {
      var h := flags / 2;
      assert flags == 2 * h && (flags + 1) / 2 == h;
      assert flags / 128 == h / 64 && (flags + 1) / 128 == h / 64;
      assert flags / 4096 == h / 2048 && (flags + 1) / 4096 == h / 2048;
    }
  }

  lemma OrHugeFlags(flags: nat)
    requires IsFlags(flags)
    ensures IsFlags(OrHuge(flags)) && Huge(OrHuge(flags)) && Present(OrHuge(flags)) == Present(flags)
  {
    if !Huge(flags) {
      var q, r := flags / 128, flags % 128;
      assert flags == 128 * q + r && flags + 128 == 128 * (q + 1) + r;
      Quotient(q + 1, r);
      PageQuotient(flags);
      PageQuotient(flags + 128);
      EvenQuotient(q);
      Parity(flags, 64);
    }
  }

  lemma OrUserFields(e: nat)
    ensures FrameOf(OrUser(e)) == FrameOf(e) && Present(OrUser(e)) == Present(e) && Huge(OrUser(e)) == Huge(e)
  {
    if !User(e) {
      var h := e / 8;
      assert e / 4 == 2 * h && (e + 4) / 4 == 2 * h + 1 && (e + 4) / 8 == h;
      assert e / 128 == h / 16 && (e + 4) / 128 == h / 16;
      assert e / 4096 == h / 512 && (e + 4) / 4096 == h / 512;
      assert (e + 4) % 2 == e % 2;
    }
  }

  // ---------------------------------------------------------------- addresses

  const LOW_TOP: nat := 0x8000_0000_0000        // 2^47
  const HIGH_BASE: nat := 0xFFFF_8000_0000_0000
  const ADDRESSES: nat := 0x1_0000_0000_0000_0000

  predicate Canonical(virt: nat) { virt < LOW_TOP || HIGH_BASE <= virt < ADDRESSES }

  /** The four table indices of an address, top level first. */
  function Ix(virt: nat): (ix: seq<nat>)
    ensures IxOk(ix)
  {
    [virt / 0x80_0000_0000 % 512, virt / 0x4000_0000 % 512, virt / 0x20_0000 % 512, virt / 0x1000 % 512]
  }

  predicate IxOk(ix: seq<nat>) { |ix| == 4 && forall d :: 0 <= d < 4 ==> ix[d] < ENTRIES }

  /** On canonical addresses the indices identify the page. */
  lemma IxIdentifiesPage(v: nat, w: nat)
    requires Canonical(v) && Canonical(w) && Ix(v) == Ix(w)
    ensures v / PAGE == w / PAGE
  {
    IxSum(v);
    IxSum(w);
    assert Ix(v)[0] == Ix(w)[0] && Ix(v)[1] == Ix(w)[1] && Ix(v)[2] == Ix(w)[2] && Ix(v)[3] == Ix(w)[3];
  }

  lemma IxOfPage(v: nat)
    ensures v / 0x20_0000 == v / PAGE / 0x200
    ensures v / 0x4000_0000 == v / PAGE / 0x4_0000
    ensures v / 0x80_0000_0000 == v / PAGE / 0x800_0000
  {}

  lemma DigitsSum(p: nat)
    ensures p == p / 0x800_0000 * 0x800_0000 + p / 0x4_0000 % 512 * 0x4_0000 + p / 0x200 % 512 * 0x200 + p % 512
  {
    assert p / 0x200 / 512 == p / 0x4_0000;
    assert p / 0x4_0000 / 512 == p / 0x800_0000;
  }

  lemma TopDigit(v: nat)
    requires Canonical(v)
    ensures v / PAGE / 0x800_0000 == (if v < LOW_TOP then 0 else 0x1FF_FE00) + v / PAGE / 0x800_0000 % 512
    ensures v < LOW_TOP <==> v / PAGE / 0x800_0000 % 512 < KERNEL_START
  {
    IxOfPage(v);
  }

  lemma IxSum(v: nat)
    requires Canonical(v)
    ensures v / PAGE == (if v < LOW_TOP then 0 else 0x1FF_FE00) * 0x800_0000
                        + Ix(v)[0] * 0x800_0000 + Ix(v)[1] * 0x4_0000 + Ix(v)[2] * 0x200 + Ix(v)[3]
    ensures v < LOW_TOP <==> Ix(v)[0] < KERNEL_START
  {
    IxOfPage(v);
    DigitsSum(v / PAGE);
    TopDigit(v);
  }

  /** The canonical address with the same low 48 bits: what the table indices of any address stand for. */
  function CanonicalForm(v: nat): (c: nat)
    ensures Canonical(c) && (Canonical(v) ==> c == v)
  {
    var low := v % 0x1_0000_0000_0000;
    if low < LOW_TOP then low else low + 0xFFFF_0000_0000_0000
  }

  lemma CanonicalFormIx(v: nat)
    ensures Ix(CanonicalForm(v)) == Ix(v) && CanonicalForm(v) % PAGE == v % PAGE
  {
    var c := CanonicalForm(v);
    SameLow48(v);
    hide Ix;
    Low48(v);
    Low48(c);
  }

  lemma SameLow48(v: nat)
    ensures CanonicalForm(v) % 0x1_0000_0000_0000 == v % 0x1_0000_0000_0000
  {
    assert (v % 0x1_0000_0000_0000 + 0xFFFF_0000_0000_0000) % 0x1_0000_0000_0000 == v % 0x1_0000_0000_0000;
  }

  lemma Low48(v: nat)
    ensures var low := v % 0x1_0000_0000_0000; Ix(v) == Ix(low) && v % PAGE == low % PAGE
  {
    var low, k := v % 0x1_0000_0000_0000, v / 0x1_0000_0000_0000;
    assert v == low + k * 0x1_0000_0000_0000;
    assert v / 0x80_0000_0000 == low / 0x80_0000_0000 + k * 512;
    assert v / 0x4000_0000 == low / 0x4000_0000 + k * 0x4_0000;
    assert v / 0x20_0000 == low / 0x20_0000 + k * 0x800_0000;
    assert v / 0x1000 == low / 0x1000 + k * 0x10_0000_0000;
    Digit512(low / 0x80_0000_0000, k);
    Digit512(low / 0x4000_0000, k * 512);
    Digit512(low / 0x20_0000, k * 0x4_0000);
    Digit512(low / 0x1000, k * 0x800_0000);
  }

  lemma Digit512(a: nat, k: nat)
    ensures (a + k * 512) % 512 == a % 512
  {}
}
