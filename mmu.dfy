/** The page-table walk of the MMU exercise: 32-bit virtual addresses
    translated through three levels as in PAE paging (section 4.4 of the
    Intel 64 and IA-32 Architectures Software Developer's Manual, Volume
    3A): bits 31:30 pick a page-directory-pointer-table entry, bits 29:21 a
    page-directory entry, bits 20:12 a page-table entry and bits 11:0 are
    the offset into the 4 KiB page. Entries are 64 bits wide.

    Physical memory is a value: the entry and the byte that ram_fetch
    returns at each physical address. Virtual and physical addresses are
    unsigned 32-bit values and all address arithmetic wraps as it does in
    C. */
module Mmu {
  import opened Buffers

  type VAddr = bv32
  type PAddr = bv32

  /** sizeof(pgd_t) == sizeof(pmd_t) == sizeof(pte_t): a PAE entry. */
  const EntrySize: PAddr := 8

  /** A paging-structure entry: the present bit and the frame number, as
      passed on to pfn_to_addr (that is, converted to paddr_ptr). */
  datatype Entry = Entry(present: bool, pfn: PAddr)

  /** What ram_fetch reads at a physical address: an entry when asked for
      sizeof(pgd_t) bytes, a byte when asked for one. */
  datatype Ram = Ram(entry: PAddr -> Entry, byte: PAddr -> bv8)

  /** pfn_to_addr: the page frame number shifted into place. In 32 bits
      the frame number's top 12 bits are lost. */
  function PfnToAddr(pfn: PAddr): (a: PAddr)
    ensures a & 0xFFF == 0
  {
    pfn << 12
  }

  /** The frame number comes back from the address, but for the 12 bits
      that do not fit. */
  lemma PfnRoundTrip(pfn: PAddr)
    ensures PfnToAddr(pfn) >> 12 == pfn & 0xF_FFFF
  {
  }

  /** Bits 31:30, the page-directory-pointer-table index. */
  function PdptIndex(vaddr: VAddr): (r: PAddr)
    ensures r < 4
  {
    (vaddr & 0xC000_0000) >> 30
  }

  /** Bits 29:21, the page-directory index. */
  function PdIndex(vaddr: VAddr): (r: PAddr)
    ensures r < 512
  {
    (vaddr & 0x3FE0_0000) >> 21
  }

  /** Bits 20:12, the page-table index. */
  function PtIndex(vaddr: VAddr): (r: PAddr)
    ensures r < 512
  {
    (vaddr & 0x001F_F000) >> 12
  }

  /** Bits 11:0, the offset into the page. */
  function Offset(vaddr: VAddr): (r: PAddr)
    ensures r < 4096
  {
    vaddr & 0xFFF
  }

  /** The address of entry index of the table at base. */
  function EntryAddr(base: PAddr, index: PAddr): (r: PAddr)
    ensures r & 7 == base & 7
  {
    base + EntrySize * index
  }

  /** pd_addr: the page directory that the PDPT entry for vaddr names. */
  function PdAddr(ram: Ram, vaddr: VAddr, pdpt: PAddr): (r: PAddr)
    ensures r & 0xFFF == 0
  {
    PfnToAddr(ram.entry(EntryAddr(pdpt, PdptIndex(vaddr))).pfn)
  }

  /** pt_addr: the page table that the page-directory entry for vaddr names. */
  function PtAddr(ram: Ram, vaddr: VAddr, pdt: PAddr): (r: PAddr)
    ensures r & 0xFFF == 0
  {
    PfnToAddr(ram.entry(EntryAddr(pdt, PdIndex(vaddr))).pfn)
  }

  /** pg_addr: the page that the page-table entry for vaddr names. */
  function PgAddr(ram: Ram, vaddr: VAddr, pt: PAddr): (r: PAddr)
    ensures r & 0xFFF == 0
  {
    PfnToAddr(ram.entry(EntryAddr(pt, PtIndex(vaddr))).pfn)
  }

  /** phys_addr: the page base plus the offset bits of vaddr. */
  function PhysAddr(vaddr: VAddr, pg: PAddr): (r: PAddr)
    ensures pg & 0xFFF == 0 ==> pg <= r && r - pg == Offset(vaddr)
  {
    Offset(vaddr) + pg
  }

  /** virt_to_phys: the status it returns and the address it stores. The
      present-bit checks are commented out in the source, so every walk
      succeeds, whatever the entries say. */
  function VirtToPhys(ram: Ram, vaddr: VAddr, cr3: PAddr): (r: (int, PAddr))
    ensures r.0 == 0
  {
    var pd := PdAddr(ram, vaddr, cr3);
    var pt := PtAddr(ram, vaddr, pd);
    var pg := PgAddr(ram, vaddr, pt);
    (0, PhysAddr(vaddr, pg))
  }

  /** The page that the walk for vaddr ends in: pg in virt_to_phys. */
  function Page(ram: Ram, vaddr: VAddr, cr3: PAddr): (pg: PAddr)
    ensures pg & 0xFFF == 0
  {
    PgAddr(ram, vaddr, PtAddr(ram, vaddr, PdAddr(ram, vaddr, cr3)))
  }

  /** The translation keeps the offset of vaddr and puts it in the page
      that the walk's last entry names. */
  lemma WalkSplits(ram: Ram, vaddr: VAddr, cr3: PAddr)
    ensures VirtToPhys(ram, vaddr, cr3).1 & 0xFFF == Offset(vaddr)
    ensures VirtToPhys(ram, vaddr, cr3).1 & 0xFFFF_F000 == Page(ram, vaddr, cr3)
  {
    PageOffset(vaddr, Page(ram, vaddr, cr3));
  }

  /** The four fields of a virtual address are disjoint and cover it:
      putting them back in place gives the address again, as a bitwise or
      and as a weighted sum. */
  lemma Decompose(vaddr: VAddr)
    ensures (PdptIndex(vaddr) << 30) | (PdIndex(vaddr) << 21) | (PtIndex(vaddr) << 12) | Offset(vaddr) == vaddr
    ensures PdptIndex(vaddr) * 0x4000_0000 + PdIndex(vaddr) * 0x20_0000
            + PtIndex(vaddr) * 0x1000 + Offset(vaddr) == vaddr
  {
  }

  /** Conversely, any four field values in range are what the index
      functions read back from the address they make up. */
  lemma Compose(pdpt: PAddr, pd: PAddr, pt: PAddr, off: PAddr)
    requires pdpt < 4 && pd < 512 && pt < 512 && off < 4096
    ensures var vaddr := (pdpt << 30) | (pd << 21) | (pt << 12) | off;
            && PdptIndex(vaddr) == pdpt && PdIndex(vaddr) == pd
            && PtIndex(vaddr) == pt && Offset(vaddr) == off
  {
  }

  /** In a page-aligned table the entry for any index below 512 lies
      inside the table's own 4 KiB page, index entries from its start. */
  lemma EntryInTable(base: PAddr, index: PAddr)
    requires base & 0xFFF == 0 && index < 512
    ensures EntryAddr(base, index) & 0xFFFF_F000 == base
    ensures EntryAddr(base, index) & 0xFFF == EntrySize * index
  {
  }

  /** With a page-aligned base the physical address keeps the page and
      the offset apart: its high 20 bits are the page, its low 12 bits
      the offset of vaddr. */
  lemma PageOffset(vaddr: VAddr, pg: PAddr)
    requires pg & 0xFFF == 0
    ensures PhysAddr(vaddr, pg) & 0xFFF == Offset(vaddr)
    ensures PhysAddr(vaddr, pg) & 0xFFFF_F000 == pg
  {
  }

  /** Addresses in the same virtual page go through the same entries to
      the same physical page. */
  lemma SamePage(ram: Ram, v: VAddr, w: VAddr, cr3: PAddr)
    requires v & 0xFFFF_F000 == w & 0xFFFF_F000
    ensures Page(ram, v, cr3) == Page(ram, w, cr3)
  {
    SameIndices(v, w);
  }

  /** The three table indices come from the page bits alone. */
  lemma SameIndices(v: VAddr, w: VAddr)
    requires v & 0xFFFF_F000 == w & 0xFFFF_F000
    ensures PdptIndex(v) == PdptIndex(w) && PdIndex(v) == PdIndex(w) && PtIndex(v) == PtIndex(w)
  {
  }

  /** The present bits play no part: a walk through entries that are all
      marked absent translates exactly as one through present entries. */
  lemma PresentIgnored(ram: Ram, vaddr: VAddr, cr3: PAddr)
    ensures var absent := ram.(entry := (a: PAddr) => ram.entry(a).(present := false));
            VirtToPhys(absent, vaddr, cr3) == VirtToPhys(ram, vaddr, cr3)
  {
  }

  /** vaddr + k in the 32-bit arithmetic of vaddr_ptr: k steps of one byte,
      wrapping around at the top of the address space. */
  function Addr(vaddr: VAddr, k: nat): VAddr
  {
    if k == 0 then vaddr else Addr(vaddr, k - 1) + 1
  }

  /** Starting one byte later is taking one step more. */
  lemma {:induction false} AddrShift(vaddr: VAddr, k: nat)
    ensures Addr(vaddr + 1, k) == Addr(vaddr, k + 1)
  {
    if k > 0 {
      AddrShift(vaddr, k - 1);
    }
  }

  /** virt_to_phys followed by a one-byte ram_fetch. */
  function Fetch(ram: Ram, vaddr: VAddr, cr3: PAddr): bv8
  {
    ram.byte(VirtToPhys(ram, vaddr, cr3).1)
  }

  /** The byte k places after vaddr. */
  function ByteAt(ram: Ram, vaddr: VAddr, cr3: PAddr, k: nat): bv8
    decreases k
  {
    if k == 0 then Fetch(ram, vaddr, cr3) else ByteAt(ram, vaddr + 1, cr3, k - 1)
  }

  /** The byte k places after vaddr is the one fetched from Addr(vaddr, k). */
  lemma {:induction false} ByteAtAddr(ram: Ram, vaddr: VAddr, cr3: PAddr, k: nat)
    ensures ByteAt(ram, vaddr, cr3, k) == Fetch(ram, Addr(vaddr, k), cr3)
    decreases k
  {
    if k > 0 {
      ByteAtAddr(ram, vaddr + 1, cr3, k - 1);
      AddrShift(vaddr, k - 1);
    }
  }

  /** One pass of the copy loop's translation: the byte at vaddr + i. */
  method FetchByte(ram: Ram, vaddr: VAddr, cr3: PAddr, i: nat) returns (c: bv8)
    ensures c == ByteAt(ram, vaddr, cr3, i)
  {
    ByteAtAddr(ram, vaddr, cr3, i);
    var t := VirtToPhys(ram, Addr(vaddr, i), cr3);
    c := ram.byte(t.1);
  }

  /** The first n bytes from vaddr on. */
  function Read(ram: Ram, vaddr: VAddr, cr3: PAddr, n: nat): (s: seq<bv8>)
    ensures |s| == n
  {
    if n == 0 then [] else Read(ram, vaddr, cr3, n - 1) + [ByteAt(ram, vaddr, cr3, n - 1)]
  }

  /** The bytes of Read are the bytes at successive addresses. */
  lemma {:induction false} ReadAt(ram: Ram, vaddr: VAddr, cr3: PAddr, n: nat, k: nat)
    requires k < n
    ensures Read(ram, vaddr, cr3, n)[k] == ByteAt(ram, vaddr, cr3, k)
  {
    if k < n - 1 {
      ReadAt(ram, vaddr, cr3, n - 1, k);
    }
  }

  /** No NUL among the first m bytes from vaddr on. */
  ghost predicate NulFree(ram: Ram, vaddr: VAddr, cr3: PAddr, m: nat)
  {
    forall k :: 0 <= k < m ==> ByteAt(ram, vaddr, cr3, k) != 0
  }

  /** The NUL-free prefix grows by one non-NUL byte. */
  lemma NulFreeStep(ram: Ram, vaddr: VAddr, cr3: PAddr, m: nat)
    requires NulFree(ram, vaddr, cr3, m) && ByteAt(ram, vaddr, cr3, m) != 0
    ensures NulFree(ram, vaddr, cr3, m + 1)
  {
  }

  /** A NUL at index nul bounds every NUL-free prefix. */
  lemma NulFreeBound(ram: Ram, vaddr: VAddr, cr3: PAddr, m: nat, nul: nat)
    requires NulFree(ram, vaddr, cr3, m) && ByteAt(ram, vaddr, cr3, nul) == 0
    ensures m <= nul
  {
    assert nul < m ==> ByteAt(ram, vaddr, cr3, nul) != 0;
  }

  /** One round of the copy loop's buffer handling: c goes at index i, the
      buffer doubles when index i + 1 would not fit, and index i + 1 is
      cleared. */
  method Put(buf: array<bv8>, i: nat, c: bv8) returns (b: array<bv8>)
    requires i < buf.Length
    modifies buf
    ensures b == buf || fresh(b)
    ensures b.Length == if i + 1 >= buf.Length then 2 * buf.Length else buf.Length
    ensures IsPow2(buf.Length) ==> IsPow2(b.Length)
    ensures b[..i + 1] == old(buf[..i]) + [c] && b[i + 1] == 0
  {
    buf[i] := c;
    b := buf;
    if i + 1 >= b.Length {
      b := Grow(b);
    }
    b[i + 1] := 0;
  }

  /** str_from_virt: bytes from successive virtual addresses are copied
      into a buffer that starts at one byte and doubles whenever the next
      write would not fit, up to and including the first NUL; the byte
      after the last one copied is also 0. The int index of the C loop
      must not overflow, so the string ends within 2^31 bytes: nul is
      the index of some NUL byte there. Returned with the buffer is the
      length of the string, the index of the first NUL. */
  method StrFromVirt(ram: Ram, vaddr: VAddr, cr3: PAddr, ghost nul: nat) returns (buf: array<bv8>, n: nat)
    requires nul < 0x8000_0000 && ByteAt(ram, vaddr, cr3, nul) == 0
    ensures fresh(buf)
    ensures n <= nul && ByteAt(ram, vaddr, cr3, n) == 0 && NulFree(ram, vaddr, cr3, n)
    ensures n + 1 < buf.Length && buf[..n + 1] == Read(ram, vaddr, cr3, n + 1) && buf[n + 1] == 0
    ensures IsPow2(buf.Length) && buf.Length <= 2 * (n + 1)
  {
    buf := new bv8[1];
    Pow2One();
    var c: bv8 := 0x20;  // ' '
    var i: nat := 0;
    while c != 0
      invariant fresh(buf)
      invariant i <= nul + 1 && i < buf.Length && IsPow2(buf.Length)
      invariant buf.Length == 1 || buf.Length <= 2 * i
      invariant buf[..i] == Read(ram, vaddr, cr3, i)
      invariant i > 0 ==> buf[i] == 0 && c == ByteAt(ram, vaddr, cr3, i - 1)
      invariant i == 0 ==> c != 0
      invariant c != 0 ==> NulFree(ram, vaddr, cr3, i) && i <= nul
      invariant c == 0 ==> NulFree(ram, vaddr, cr3, i - 1)
      decreases nul + 1 - i
    {
      // virt_to_phys never reports a fault, so the page-fault return
      // that follows it in the C code is never taken
      c := FetchByte(ram, vaddr, cr3, i);
      if c != 0 {
        NulFreeStep(ram, vaddr, cr3, i);
        NulFreeBound(ram, vaddr, cr3, i + 1, nul);
      }
      buf := Put(buf, i, c);
      i := i + 1;
    }
    n := i - 1;
  }
}
