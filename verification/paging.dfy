/** Page arithmetic of the mykmod character device: the bound that mmap
    enforces before a mapping is accepted, and the byte offset into a
    device's buffer that the fault handler resolves a faulting page to.

    The driver computes both in C `unsigned long`, i.e. modulo 2^64; Wrap64
    makes that reduction explicit wherever the driver relies on it. */
module Paging {

  /** Size of one page, in bytes (PAGE_SIZ). */
  const PAGE_SIZ: nat := 4096

  /** Capacity of every device buffer (MYDEV_LEN): one mebibyte, 256 pages. */
  const MYDEV_LEN: nat := 0x10_0000

  /** Number of values of a 64-bit `unsigned long`. */
  const U64_MODULUS: nat := 0x1_0000_0000_0000_0000

  type U64 = x: nat | x < U64_MODULUS

  /** Reduction of an exact integer to `unsigned long`. */
  function Wrap64(x: int): (r: U64)
    ensures 0 <= x < U64_MODULUS ==> r == x
    ensures (x - r) % U64_MODULUS == 0
  {
    x % U64_MODULUS
  }

  // ---------------------------------------------------------------------
  // The mapping bound of mmap
  // ---------------------------------------------------------------------

  /** The window of the device a mapping covers, pages vmPgoff onwards for
      `length` bytes, lies inside the buffer (exact arithmetic). */
  predicate Fits(vmPgoff: nat, length: nat)
  {
    vmPgoff * PAGE_SIZ + length <= MYDEV_LEN
  }

  /** The acceptance test of mmap exactly as the driver writes it: the sum
      `vm_pgoff * PAGE_SIZ + vm_end - vm_start` is formed left to right in
      `unsigned long`, each step wrapping modulo 2^64, and compared with
      MYDEV_LEN. */
  predicate FitsAsWritten(vmPgoff: U64, vmStart: U64, vmEnd: U64): (ok: bool)
    requires vmStart <= vmEnd
    ensures ok <==> Wrap64(vmPgoff * PAGE_SIZ + (vmEnd - vmStart)) <= MYDEV_LEN
  {
    var sum := Wrap64(Wrap64(Wrap64(vmPgoff * PAGE_SIZ) + vmEnd) - vmStart);
    !(MYDEV_LEN < sum)
  }

  /** The same test phrased so that no intermediate value can exceed 64
      bits: the length fits, and the offset fits in what the length leaves. */
  predicate FitsChecked(vmPgoff: U64, length: U64)
  {
    length <= MYDEV_LEN && vmPgoff <= (MYDEV_LEN - length) / PAGE_SIZ
  }

  /** The overflow-free test accepts exactly the mappings that fit. */
  lemma FitsCheckedIsExact(vmPgoff: U64, length: U64)
    ensures FitsChecked(vmPgoff, length) <==> Fits(vmPgoff, length)
  {
  }

  /** When the exact sum stays below 2^64 (as it does for every offset a
      file may legally have), the test as written is the exact one. */
  lemma FitsAsWrittenExactWithoutWrap(vmPgoff: U64, vmStart: U64, vmEnd: U64)
    requires vmStart <= vmEnd
    requires vmPgoff * PAGE_SIZ + (vmEnd - vmStart) < U64_MODULUS
    ensures FitsAsWritten(vmPgoff, vmStart, vmEnd) <==> Fits(vmPgoff, vmEnd - vmStart)
  {
  }

  /** The test as written accepts a mapping that does not fit: an offset of
      2^52 - 1 pages with a one-page length makes the sum exactly 2^64,
      which wraps to 0. */
  lemma FitsAsWrittenAdmitsWrappedOffset()
    ensures FitsAsWritten(U64_MODULUS / PAGE_SIZ - 1, 0x1000, 0x2000)
    ensures !Fits(U64_MODULUS / PAGE_SIZ - 1, 0x2000 - 0x1000)
    ensures PageOffset(U64_MODULUS / PAGE_SIZ - 1) >= MYDEV_LEN
  {
  }

  // ---------------------------------------------------------------------
  // The offset a fault resolves to
  // ---------------------------------------------------------------------

  /** Byte offset of page `pgoff` of a device buffer. */
  function PageOffset(pgoff: nat): (off: nat)
    ensures off % PAGE_SIZ == 0 && off / PAGE_SIZ == pgoff
  {
    pgoff * PAGE_SIZ
  }

  /** The offset the fault handler computes as written: the fault's page
      offset plus the mapping's page offset, scaled to bytes, in
      `unsigned long`. */
  function FaultOffsetAsWritten(vmfPgoff: U64, vmPgoff: U64): (off: U64)
    ensures off == Wrap64(PageOffset(vmfPgoff + vmPgoff))
    ensures off % PAGE_SIZ == 0
  {
    Wrap64(Wrap64(vmfPgoff + vmPgoff) * PAGE_SIZ)
  }

  /** Page `pgoff` of the device lies inside a mapping that starts at device
      page vmPgoff and is `length` bytes long. The host reports every fault
      in these terms: its page offset counts from the start of the device,
      and so already includes the mapping's own offset. */
  predicate InMapping(vmPgoff: nat, length: nat, pgoff: nat)
  {
    vmPgoff <= pgoff < vmPgoff + length / PAGE_SIZ
  }

  /** A page inside an accepted mapping lies entirely inside the buffer. */
  lemma PageInBuffer(vmPgoff: nat, length: nat, pgoff: nat)
    requires Fits(vmPgoff, length)
    requires InMapping(vmPgoff, length, pgoff)
    ensures PageOffset(pgoff) + PAGE_SIZ <= MYDEV_LEN
  {
  }

  /** Read with a mapping-relative fault offset k, as the driver's comment
      reads it, the computation as written picks page vmPgoff + k, and every
      page of an accepted mapping lies inside the buffer. */
  lemma RelativeFaultInBuffer(vmPgoff: U64, length: nat, k: U64)
    requires Fits(vmPgoff, length)
    requires k < length / PAGE_SIZ
    ensures FaultOffsetAsWritten(k, vmPgoff) == PageOffset(vmPgoff + k)
    ensures FaultOffsetAsWritten(k, vmPgoff) + PAGE_SIZ <= MYDEV_LEN
  {
  }

  /** Given the host's device-relative page offset, the computation as
      written adds the mapping's offset a second time. */
  lemma AsWrittenCountsOffsetTwice(vmfPgoff: U64, vmPgoff: U64)
    requires (vmfPgoff + vmPgoff) * PAGE_SIZ < U64_MODULUS
    ensures FaultOffsetAsWritten(vmfPgoff, vmPgoff) == PageOffset(vmfPgoff) + PageOffset(vmPgoff)
  {
  }

  /** For a mapping at device offset 0 both readings agree. */
  lemma OffsetsAgreeAtOffsetZero(pgoff: U64)
    requires pgoff * PAGE_SIZ < U64_MODULUS
    ensures FaultOffsetAsWritten(pgoff, 0) == PageOffset(pgoff)
  {
  }

  /** The computation as written leaves the buffer: a mapping of the second
      half of the device (offset 128 pages, 512 KiB long) is accepted, and a
      fault on its first page, which the host reports as device page 128,
      resolves to offset MYDEV_LEN, one past the end of the buffer. */
  lemma AsWrittenFaultLeavesBuffer()
    ensures Fits(128, 128 * PAGE_SIZ)
    ensures InMapping(128, 128 * PAGE_SIZ, 128)
    ensures FaultOffsetAsWritten(128, 128) + PAGE_SIZ > MYDEV_LEN
  {
  }
}
