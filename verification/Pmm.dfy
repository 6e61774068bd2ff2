/** The physical memory manager: a bitmap of 4 KiB pages with a search hint. */
module Pmm {
  import opened Common

  const PAGE_SIZE: nat := 4096
  const MIB: nat := 1048576

  /** A 64-bit bitmap word as its bits, least significant first; true marks a used page. */
  type Word = w: seq<bool> | |w| == 64 witness seq(64, _ => true)

  const ALL_ONES: Word := seq(64, _ => true)

  /** The bitmap's bit for a page: word page / 64, bit page % 64. */
  predicate PageBit(words: seq<Word>, page: nat)
    requires page < |words| * 64
  {
    words[page / 64][page % 64]
  }

  /** Writing one page's bit leaves every other page's bit alone. */
  lemma PageBitUpdate(words: seq<Word>, page: nat, used: bool, q: nat)
    requires page < |words| * 64 && q < |words| * 64
    ensures PageBit(words[page / 64 := words[page / 64][page % 64 := used]], q)
            == if q == page then used else PageBit(words, q)
  {
    assert q == page <==> q / 64 == page / 64 && q % 64 == page % 64;
  }

  /** The bitmap's clear bits are exactly the pages in `free`. */
  ghost predicate Represents(words: seq<Word>, maxPages: nat, free: set<nat>) {
    && maxPages <= |words| * 64
    && (forall p :: p in free ==> p < maxPages)
    && (forall p :: 0 <= p < maxPages ==> (p in free <==> !PageBit(words, p)))
  }

  lemma AllUsed(words: seq<Word>, maxPages: nat)
    requires maxPages <= |words| * 64 && forall i :: 0 <= i < |words| ==> words[i] == ALL_ONES
    ensures Represents(words, maxPages, {})
  {}

  lemma RepresentsRange(words: seq<Word>, maxPages: nat, free: set<nat>, page: nat)
    requires Represents(words, maxPages, free)
    ensures maxPages <= |words| * 64
    ensures page < maxPages ==> (page in free <==> !PageBit(words, page))
    ensures forall p :: p in free ==> p < maxPages
  {}

  /** The bit of one page now says `used`, and the bit of every other page is what it was. */
  ghost predicate BitWritten(before: seq<Word>, words: seq<Word>, page: nat, used: bool) {
    && |words| == |before|
    && forall q :: 0 <= q < |words| * 64 ==> PageBit(words, q) == if q == page then used else PageBit(before, q)
  }

  lemma BitUpdate(words: seq<Word>, page: nat, used: bool)
    requires page < |words| * 64
    ensures BitWritten(words, words[page / 64 := words[page / 64][page % 64 := used]], page, used)
  {
    var words' := words[page / 64 := words[page / 64][page % 64 := used]];
    forall q | 0 <= q < |words| * 64 ensures PageBit(words', q) == if q == page then used else PageBit(words, q) {
      PageBitUpdate(words, page, used, q);
    }
  }

  lemma RepresentsUpdate(words: seq<Word>, words': seq<Word>, maxPages: nat, free: set<nat>, page: nat, used: bool)
    requires Represents(words, maxPages, free) && page < maxPages && BitWritten(words, words', page, used)
    ensures Represents(words', maxPages, if used then free - {page} else free + {page})
  {}

  /** The first free page at or after `hint`, or failing that the first free page: what pmm_alloc's two loops find. */
  ghost predicate FirstFrom(free: set<nat>, hint: nat, page: nat) {
    && page in free
    && if hint <= page then forall p :: p in free && hint <= p ==> page <= p
       else forall p :: p in free ==> p < hint && page <= p
  }

  lemma FirstFromLowHint(free: set<nat>, hint: nat, page: nat)
    requires FirstFrom(free, hint, page) && forall p :: p in free ==> hint <= p
    ensures forall p :: p in free ==> page <= p
    ensures forall p :: p in free - {page} ==> page + 1 <= p
  {}

  // ---------------------------------------------------------------- the boot memory map

  datatype RegionKind = Usable | Reclaimable | OtherKind

  datatype Region = Region(base: nat, length: nat, kind: RegionKind) {
    function Top(): nat { base + length }
  }

  /** The boot loader promises that usable regions do not overlap. */
  ghost predicate NoOverlap(regions: seq<Region>) {
    forall i, j :: 0 <= i < j < |regions| && regions[i].kind == Usable && regions[j].kind == Usable ==>
      regions[i].Top() <= regions[j].base || regions[j].Top() <= regions[i].base
  }

  /** It also promises that they are whole pages, which matters for a region that can hold the bitmap. */
  ghost predicate HostsAligned(regions: seq<Region>, bytes: nat) {
    forall i :: 0 <= i < |regions| && CanHost(regions[i], bytes) ==>
      regions[i].base % PAGE_SIZE == 0 && regions[i].length % PAGE_SIZE == 0
  }

  /** The highest end of a usable or reclaimable region among the first `n`. */
  function HighestTop(regions: seq<Region>, n: nat): nat
    requires n <= |regions|
  {
    if n == 0 then 0
    else
      var top := HighestTop(regions, n - 1);
      if regions[n - 1].kind != OtherKind && regions[n - 1].Top() > top then regions[n - 1].Top() else top
  }

  lemma {:induction false} HighestTopBounds(regions: seq<Region>, n: nat, i: nat)
    requires i < n <= |regions| && regions[i].kind != OtherKind
    ensures regions[i].Top() <= HighestTop(regions, n)
  {
    if i < n - 1 { HighestTopBounds(regions, n - 1, i); }
  }

  lemma {:induction false} HighestTopReached(regions: seq<Region>, n: nat)
    requires n <= |regions|
    ensures || HighestTop(regions, n) == 0
            || exists i :: 0 <= i < n && regions[i].kind != OtherKind && regions[i].Top() == HighestTop(regions, n)
  {
    if n > 0 {
      HighestTopReached(regions, n - 1);
      assert HighestTop(regions, n) != HighestTop(regions, n - 1) ==> regions[n - 1].Top() == HighestTop(regions, n);
    }
  }

  predicate CanHost(r: Region, bytes: nat) { r.kind == Usable && r.base >= MIB && r.length >= bytes }

  ghost function Range(lo: nat, hi: nat): (r: set<nat>)
    requires lo <= hi
    ensures forall p :: p in r <==> lo <= p < hi
    decreases hi - lo
  {
    if lo == hi then {} else Range(lo, hi - 1) + {hi - 1}
  }

  lemma RangeStep(lo: nat, hi: nat)
    requires lo <= hi
    ensures Range(lo, lo) == {} && Range(lo, hi + 1) == Range(lo, hi) + {hi}
  {}

  lemma PageOfAddress(page: nat)
    ensures page * PAGE_SIZE / PAGE_SIZE == page && page * PAGE_SIZE + PAGE_SIZE == (page + 1) * PAGE_SIZE
  {}

  /** The first page that begins in the region. */
  function FirstPage(r: Region): nat { (r.base + PAGE_SIZE - 1) / PAGE_SIZE }

  /** The pages that lie wholly inside the region. */
  ghost function RegionPages(r: Region): set<nat> {
    if FirstPage(r) <= r.Top() / PAGE_SIZE then Range(FirstPage(r), r.Top() / PAGE_SIZE) else {}
  }

  lemma PageInside(r: Region, p: nat)
    ensures p in RegionPages(r) <==> r.base <= p * PAGE_SIZE && p * PAGE_SIZE + PAGE_SIZE <= r.Top()
  {
    Rounding(r.base, p);
    Truncating(r.Top(), p);
  }

  lemma Rounding(a: nat, p: nat)
    ensures (a + PAGE_SIZE - 1) / PAGE_SIZE <= p <==> a <= p * PAGE_SIZE
  {}

  lemma Truncating(a: nat, p: nat)
    ensures p < a / PAGE_SIZE <==> p * PAGE_SIZE + PAGE_SIZE <= a
  {}

  /** The pages of the usable regions among the first `n`. */
  ghost function UsablePages(regions: seq<Region>, n: nat): set<nat>
    requires n <= |regions|
  {
    if n == 0 then {}
    else if regions[n - 1].kind == Usable then UsablePages(regions, n - 1) + RegionPages(regions[n - 1])
    else UsablePages(regions, n - 1)
  }

  lemma {:induction false} UsablePagesFrom(regions: seq<Region>, n: nat, p: nat)
    requires n <= |regions|
    ensures p in UsablePages(regions, n) <==>
              exists i :: 0 <= i < n && regions[i].kind == Usable && p in RegionPages(regions[i])
  {
    if n > 0 { UsablePagesFrom(regions, n - 1, p); }
  }

  /** A usable region shares no page with the usable regions before it, and lies below the bitmap's end. */
  lemma NextRegionFresh(regions: seq<Region>, i: nat, p: nat)
    requires NoOverlap(regions) && i < |regions| && regions[i].kind == Usable && p in RegionPages(regions[i])
    ensures p !in UsablePages(regions, i)
    ensures p < HighestTop(regions, |regions|) / PAGE_SIZE
  {
    hide RegionPages;
    HighestTopBounds(regions, |regions|, i);
    UsablePagesFrom(regions, i, p);
    PageInside(regions[i], p);
    Truncating(HighestTop(regions, |regions|), p);
    forall j | 0 <= j < i && regions[j].kind == Usable ensures p !in RegionPages(regions[j]) {
      PageInside(regions[j], p);
    }
  }

  function BitmapBytes(maxPages: nat): nat { (maxPages + 7) / 8 }

  function BitmapPageCount(maxPages: nat): nat { (BitmapBytes(maxPages) + PAGE_SIZE - 1) / PAGE_SIZE }

  /** A bit for every page, and whole pages for every byte of them, with nothing to spare. */
  lemma BitmapFits(maxPages: nat)
    ensures maxPages <= 8 * BitmapBytes(maxPages) < maxPages + 8
    ensures BitmapBytes(maxPages) <= 4096 * BitmapPageCount(maxPages) < BitmapBytes(maxPages) + 4096
  {}

  /** A region can host the bitmap when it is usable, begins at 1 MiB or above, and has a bit for every page. */
  lemma HostMeans(r: Region, maxPages: nat)
    ensures CanHost(r, BitmapBytes(maxPages)) <==> r.kind == Usable && r.base >= 0x10_0000 && 8 * r.length >= maxPages
  {
    BitmapFits(maxPages);
  }

  lemma HostPage(r: Region, bytes: nat, p: nat)
    requires CanHost(r, bytes) && r.base % PAGE_SIZE == 0 && r.length % PAGE_SIZE == 0
    requires r.base / PAGE_SIZE <= p < r.base / PAGE_SIZE + (bytes + PAGE_SIZE - 1) / PAGE_SIZE
    ensures p in RegionPages(r) && p != 0
  {
    assert FirstPage(r) == r.base / PAGE_SIZE && r.Top() / PAGE_SIZE == r.base / PAGE_SIZE + r.length / PAGE_SIZE;
    Rounding(bytes, r.length / PAGE_SIZE);
  }

  /** The pages pmm_init puts its bitmap in all belong to the hosting region. */
  lemma BitmapInHost(regions: seq<Region>, h: nat, maxPages: nat, p: nat)
    requires h < |regions| && CanHost(regions[h], BitmapBytes(maxPages)) && HostsAligned(regions, BitmapBytes(maxPages))
    requires regions[h].base / PAGE_SIZE <= p < regions[h].base / PAGE_SIZE + BitmapPageCount(maxPages)
    ensures p in UsablePages(regions, |regions|) && p != 0
  {
    HostPage(regions[h], BitmapBytes(maxPages), p);
    UsablePagesFrom(regions, |regions|, p);
  }

  class Manager {
    var bitmap: array<Word>
    var maxPages: nat
    var usedPages: nat
    var freePages: nat
    var lastFound: nat
    ghost var free: set<nat>

    ghost predicate Valid()
      reads this, bitmap
    {
      && Represents(bitmap[..], maxPages, free)
      && freePages == |free| && usedPages == maxPages - |free|
      && lastFound <= maxPages
    }

    /** No free page lies below the hint. */
    ghost predicate HintLow()
      reads this
    {
      forall p :: p in free ==> lastFound <= p
    }

    constructor ()
      ensures fresh(bitmap) && maxPages == usedPages == freePages == lastFound == 0 && free == {}
      ensures Valid()
    {
      bitmap := new Word[0];
      maxPages, usedPages, freePages, lastFound := 0, 0, 0, 0;
      free := {};
    }

    /**
     * pmm_init. On success the free pages are exactly those of the usable regions, without page 0 and without
     * the pages that hold the bitmap; the counters agree with them and the hint is low.
     */
    method Init(regions: seq<Region>) returns (st: Status)
      requires NoOverlap(regions) && HostsAligned(regions, BitmapBytes(HighestTop(regions, |regions|) / PAGE_SIZE))
      requires freePages == usedPages == lastFound == 0 && free == {}
      modifies this
      ensures st == Error <==>
                || HighestTop(regions, |regions|) == 0
                || forall i :: 0 <= i < |regions| ==>
                     !CanHost(regions[i], BitmapBytes(HighestTop(regions, |regions|) / PAGE_SIZE))
      ensures st == Ok ==> Valid() && HintLow() && 0 !in free && fresh(bitmap)
      ensures st == Ok ==> maxPages == HighestTop(regions, |regions|) / PAGE_SIZE
      ensures st == Ok ==> exists h ::
                && 0 <= h < |regions| && CanHost(regions[h], BitmapBytes(maxPages))
                && (forall i :: 0 <= i < h ==> !CanHost(regions[i], BitmapBytes(maxPages)))
                && var first := regions[h].base / PAGE_SIZE;
                   free == UsablePages(regions, |regions|) - Range(first, first + BitmapPageCount(maxPages)) - {0}
    {
      hide NoOverlap, HostsAligned;
      var top := FindTop(regions);
      maxPages := top / PAGE_SIZE;
      var host := FindHost(regions, BitmapBytes(maxPages));
      if top == 0 || host == |regions| {
        return Error;
      }
      HighestTopBounds(regions, |regions|, host);
      bitmap := new Word[(maxPages + 63) / 64](_ => ALL_ONES);
      AllUsed(bitmap[..], maxPages);
      Populate(regions, host);
      assert HintLow() && 0 !in free;
      st := Ok;
    }

    /** Fill a bitmap of used pages from the memory map. */
    method Populate(regions: seq<Region>, host: nat)
      requires NoOverlap(regions) && HostsAligned(regions, BitmapBytes(maxPages))
      requires maxPages == HighestTop(regions, |regions|) / PAGE_SIZE && maxPages > 0
      requires host < |regions| && CanHost(regions[host], BitmapBytes(maxPages))
      requires Represents(bitmap[..], maxPages, {})
      requires freePages == usedPages == lastFound == 0 && free == {}
      modifies this`free, this`freePages, this`usedPages, bitmap
      ensures Valid() && lastFound == 0
      ensures var first := regions[host].base / PAGE_SIZE;
              free == UsablePages(regions, |regions|) - Range(first, first + BitmapPageCount(maxPages)) - {0}
    {
      hide NoOverlap, HostsAligned, UsablePages, Represents, Range, CanHost, BitmapBytes, BitmapPageCount, HighestTop;
      FreeUsable(regions);
      ReserveBitmap(regions, host);
      ReserveZero();
      CountUsed();
    }

    /** Every page that is not free counts as used. */
    method CountUsed()
      requires Represents(bitmap[..], maxPages, free) && freePages == |free| && lastFound == 0
      modifies this`usedPages
      ensures Valid()
    {
      RepresentsRange(bitmap[..], maxPages, free, 0);
      SubsetOfBelow(maxPages, free);
      usedPages := maxPages - freePages;
    }

    /** Page 0 is never handed out: address 0 means out of memory. */
    method ReserveZero()
      requires Represents(bitmap[..], maxPages, free) && freePages == |free| && maxPages > 0
      modifies this`free, this`freePages, this`usedPages, bitmap
      ensures Represents(bitmap[..], maxPages, free) && freePages == |free| && free == old(free) - {0}
    {
      RepresentsRange(bitmap[..], maxPages, free, 0);
      hide Represents;
      var used := TestBit(0);
      if !used {
        MarkUsed(0);
        usedPages := usedPages + 1;
      }
      assert free == old(free) - {0};
    }

    method FindTop(regions: seq<Region>) returns (top: nat)
      ensures top == HighestTop(regions, |regions|)
    {
      top := 0;
      for i := 0 to |regions|
        invariant top == HighestTop(regions, i)
      {
        if regions[i].kind != OtherKind && regions[i].Top() > top {
          top := regions[i].Top();
        }
      }
    }

    method FindHost(regions: seq<Region>, bytes: nat) returns (host: nat)
      ensures host <= |regions|
      ensures host < |regions| ==> CanHost(regions[host], bytes)
      ensures forall i :: 0 <= i < host ==> !CanHost(regions[i], bytes)
    {
      host := 0;
      while host < |regions| && !CanHost(regions[host], bytes)
        invariant host <= |regions|
        invariant forall i :: 0 <= i < host ==> !CanHost(regions[i], bytes)
      {
        host := host + 1;
      }
    }

    /** Clear the bits of the pages inside the usable regions, whether these are whole pages or not. */
    method FreeUsable(regions: seq<Region>)
      requires NoOverlap(regions) && maxPages == HighestTop(regions, |regions|) / PAGE_SIZE
      requires Represents(bitmap[..], maxPages, {}) && free == {} && freePages == 0
      modifies this`free, this`freePages, bitmap
      ensures Represents(bitmap[..], maxPages, free) && freePages == |free|
      ensures free == UsablePages(regions, |regions|)
    {
      hide Represents, Range, NoOverlap, HighestTop, RegionPages;
      for i := 0 to |regions|
        invariant Represents(bitmap[..], maxPages, free) && freePages == |free|
        invariant free == UsablePages(regions, i)
      {
        if regions[i].kind == Usable {
          forall p | p in RegionPages(regions[i]) ensures p !in free && p < maxPages { NextRegionFresh(regions, i, p); }
          FreeRegion(regions[i]);
        }
      }
    }

    method FreeRegion(r: Region)
      requires Represents(bitmap[..], maxPages, free) && freePages == |free|
      requires forall p :: p in RegionPages(r) ==> p !in free && p < maxPages
      modifies this`free, this`freePages, bitmap
      ensures Represents(bitmap[..], maxPages, free) && freePages == |free|
      ensures free == old(free) + RegionPages(r)
    {
      hide Represents, Range;
      var base := (r.base + PAGE_SIZE - 1) / PAGE_SIZE * PAGE_SIZE;
      var top := r.Top() / PAGE_SIZE * PAGE_SIZE;
      ghost var lo, hi := FirstPage(r), r.Top() / PAGE_SIZE;
      if base <= top {
        FreePages(base, top, lo, hi);
      } else {
        assert free == old(free) + RegionPages(r);
      }
    }

    /** Page by page from one page-aligned address to another. */
    method FreePages(base: nat, top: nat, ghost lo: nat, ghost hi: nat)
      requires lo <= hi && base == lo * PAGE_SIZE && top == hi * PAGE_SIZE
      requires Represents(bitmap[..], maxPages, free) && freePages == |free|
      requires forall p :: p in Range(lo, hi) ==> p !in free && p < maxPages
      modifies this`free, this`freePages, bitmap
      ensures Represents(bitmap[..], maxPages, free) && freePages == |free|
      ensures free == old(free) + Range(lo, hi)
    {
      hide Represents, Range;
      var addr := base;
      ghost var next := lo;
      RangeStep(lo, lo);
      while addr < top
        invariant lo <= next <= hi && addr == next * PAGE_SIZE
        invariant Represents(bitmap[..], maxPages, free) && freePages == |free|
        invariant free == old(free) + Range(lo, next)
      {
        var page := addr / PAGE_SIZE;
        PageOfAddress(next);
        assert page in Range(lo, hi);
        MarkFree(page);
        RangeStep(lo, next);
        addr := addr + PAGE_SIZE;
        next := next + 1;
      }
    }

    method ReserveBitmap(regions: seq<Region>, host: nat)
      requires host < |regions| && CanHost(regions[host], BitmapBytes(maxPages))
      requires HostsAligned(regions, BitmapBytes(maxPages))
      requires Represents(bitmap[..], maxPages, free) && freePages == |free|
      requires free == UsablePages(regions, |regions|)
      modifies this`free, this`freePages, this`usedPages, bitmap
      ensures Represents(bitmap[..], maxPages, free) && freePages == |free|
      ensures var first := regions[host].base / PAGE_SIZE;
              free == old(free) - Range(first, first + BitmapPageCount(maxPages))
    {
      hide Represents, Range, UsablePages, HostsAligned;
      var first := regions[host].base / PAGE_SIZE;
      RangeStep(first, first);
      for i := 0 to BitmapPageCount(maxPages)
        invariant Represents(bitmap[..], maxPages, free) && freePages == |free|
        invariant free == old(free) - Range(first, first + i)
      {
        BitmapInHost(regions, host, maxPages, first + i);
        RangeStep(first, first + i);
        MarkUsed(first + i);
        usedPages := usedPages + 1;
      }
    }

    method SetBit(page: nat)
      requires page < bitmap.Length * 64
      modifies bitmap
      ensures BitWritten(old(bitmap[..]), bitmap[..], page, true)
    {
      BitUpdate(bitmap[..], page, true);
      bitmap[page / 64] := bitmap[page / 64][page % 64 := true];
      assert bitmap[..] == old(bitmap[..])[page / 64 := old(bitmap[page / 64])[page % 64 := true]];
    }

    method ClearBit(page: nat)
      requires page < bitmap.Length * 64
      modifies bitmap
      ensures BitWritten(old(bitmap[..]), bitmap[..], page, false)
    {
      BitUpdate(bitmap[..], page, false);
      bitmap[page / 64] := bitmap[page / 64][page % 64 := false];
      assert bitmap[..] == old(bitmap[..])[page / 64 := old(bitmap[page / 64])[page % 64 := false]];
    }

    method TestBit(page: nat) returns (used: bool)
      requires Represents(bitmap[..], maxPages, free) && page < maxPages
      ensures used <==> page !in free
    {
      RepresentsRange(bitmap[..], maxPages, free, page);
      used := bitmap[page / 64][page % 64];
    }

    method MarkUsed(page: nat)
      requires Represents(bitmap[..], maxPages, free) && freePages == |free| && page in free
      modifies this`free, this`freePages, bitmap
      ensures Represents(bitmap[..], maxPages, free) && freePages == |free| && free == old(free) - {page}
    {
      ghost var words := bitmap[..];
      SetBit(page);
      RepresentsUpdate(words, bitmap[..], maxPages, free, page, true);
      freePages := freePages - 1;
      free := free - {page};
    }

    method MarkFree(page: nat)
      requires Represents(bitmap[..], maxPages, free) && freePages == |free| && page < maxPages && page !in free
      modifies this`free, this`freePages, bitmap
      ensures Represents(bitmap[..], maxPages, free) && freePages == |free| && free == old(free) + {page}
    {
      ghost var words := bitmap[..];
      ClearBit(page);
      RepresentsUpdate(words, bitmap[..], maxPages, free, page, false);
      freePages := freePages + 1;
      free := free + {page};
    }

    /** The first free page of [lo, hi), or hi. */
    method Scan(lo: nat, hi: nat) returns (page: nat)
      requires Valid() && lo <= hi <= maxPages
      ensures lo <= page <= hi
      ensures page < hi ==> page in free
      ensures forall p :: p in free && lo <= p < hi ==> page <= p
    {
      page := lo;
      while page < hi
        invariant lo <= page <= hi
        invariant forall p :: p in free && lo <= p < hi ==> page <= p
      {
        var used := TestBit(page);
        if !used {
          return;
        }
        page := page + 1;
      }
    }

    /**
     * The search of pmm_alloc: from the hint upward, then from page 0 up to the hint; maxPages when nothing is free.
     */
    method FindFree() returns (page: nat)
      requires Valid()
      ensures free == {} ==> page == maxPages
      ensures free != {} ==> page < maxPages && FirstFrom(free, lastFound, page)
    {
      assert forall p :: p in free ==> p < maxPages;
      page := Scan(lastFound, maxPages);
      if page < maxPages {
        return;
      }
      page := Scan(0, lastFound);
      if page < lastFound {
        return;
      }
      assert free == {};
      return maxPages;
    }

    /** Mark a free page used and move the hint past it. */
    method Claim(page: nat)
      requires Valid() && page in free
      modifies this`usedPages, this`freePages, this`lastFound, this`free, bitmap
      ensures Valid() && free == old(free) - {page} && lastFound == page + 1
    {
      MarkUsed(page);
      usedPages := usedPages + 1;
      lastFound := page + 1;
    }

    /**
     * Returns the address of a newly used page, or 0 when nothing is free. Once page 0 has been freed, 0 may also be
     * the address of that page. While the hint is low, the page is the lowest free one and the hint stays low.
     */
    method Alloc() returns (phys: nat)
      requires Valid()
      modifies this`usedPages, this`freePages, this`lastFound, this`free, bitmap
      ensures Valid()
      ensures old(free) == {} ==> phys == 0 && free == {} && lastFound == old(lastFound)
      ensures old(free) != {} ==> phys % PAGE_SIZE == 0 && FirstFrom(old(free), old(lastFound), phys / PAGE_SIZE)
                                  && free == old(free) - {phys / PAGE_SIZE} && lastFound == phys / PAGE_SIZE + 1
      ensures phys == 0 <==> old(free) == {} || FirstFrom(old(free), old(lastFound), 0)
      ensures 0 !in old(free) ==> (phys == 0 <==> old(free) == {})
      ensures old(HintLow()) ==> HintLow()
      ensures old(HintLow()) && old(free) != {} ==> forall p :: p in old(free) ==> phys / PAGE_SIZE <= p
    {
      var page := FindFree();
      if page == maxPages {
        return 0;
      }
      if HintLow() { FirstFromLowHint(free, lastFound, page); }
      Claim(page);
      return page * PAGE_SIZE;
    }

    /** Frees a used page; an unaligned or out-of-range address is refused, a free page is left free. */
    method Free(phys: nat) returns (st: Status)
      requires Valid()
      modifies this`usedPages, this`freePages, this`lastFound, this`free, bitmap
      ensures Valid()
      ensures st == Error <==> phys % PAGE_SIZE != 0 || phys / PAGE_SIZE >= maxPages
      ensures free == if st == Ok then old(free) + {phys / PAGE_SIZE} else old(free)
      ensures lastFound == if st == Ok && phys / PAGE_SIZE !in old(free) && phys / PAGE_SIZE < old(lastFound)
                           then phys / PAGE_SIZE else old(lastFound)
      ensures old(HintLow()) ==> HintLow()
    {
      if phys % PAGE_SIZE != 0 {
        return Error;
      }
      var page := phys / PAGE_SIZE;
      if page >= maxPages {
        return Error;
      }
      var used := TestBit(page);
      if !used {
        assert free + {page} == free;
        return Ok;
      }
      UsedRemain(maxPages, free, page);
      MarkFree(page);
      usedPages := usedPages - 1;
      if page < lastFound {
        lastFound := page;
      }
      return Ok;
    }

    /**
     * Freeing page 0 is accepted, and the next allocation then hands it out as address 0, the value that means failure.
     */
    method FreeZeroThenAlloc() returns (phys: nat)
      requires Valid() && maxPages > 0 && 0 !in free
      modifies this`usedPages, this`freePages, this`lastFound, this`free, bitmap
      ensures Valid() && phys == 0 && free == old(free)
    {
      var st := Free(0);
      assert FirstFrom(free, lastFound, 0);
      phys := Alloc();
    }
  }

  lemma {:induction false} SubsetOfBelow(n: nat, s: set<nat>)
    requires forall p :: p in s ==> p < n
    ensures |s| <= n
    decreases n
  {
    if n == 0 {
      assert s == {};
    } else {
      var t := s - {n - 1};
      SubsetOfBelow(n - 1, t);
      assert n - 1 in s ==> s == t + {n - 1};
      assert n - 1 !in s ==> s == t;
    }
  }

  lemma UsedRemain(n: nat, free: set<nat>, page: nat)
    requires forall p :: p in free ==> p < n
    requires page < n && page !in free
    ensures |free| + 1 <= n
  {
    SubsetOfBelow(n, free + {page});
  }
}
