/** Machine words of the kernel: unsigned 64-bit values held as naturals, and the
    higher-half direct map (HHDM) that the kernel uses to reach physical memory. */
module Words {
  const TWO64: nat := 0x1_0000_0000_0000_0000
  const PAGE_SIZE: nat := 4096
  const WORD_BYTES: nat := 8

  type Word = w: nat | w < TWO64

  function Pow2(k: nat): (p: nat)
    ensures 0 < p
  {
    if k == 0 then 1 else 2 * Pow2(k - 1)
  }

  /** Size in bytes of `count` pages, with the wrap-around of an unsigned 64-bit product. */
  function PageBytes(count: Word): (sz: Word)
    ensures sz % PAGE_SIZE == 0
  {
    WrappedPages(count, count * PAGE_SIZE / TWO64);
    (count * PAGE_SIZE) % TWO64
  }

  /** In pages: the count modulo 2^52. */
  lemma {:induction false} PageCount(count: Word)
    ensures PageBytes(count) == 0x1000 * (count % 0x10_0000_0000_0000)
  {
    var q, r := count / 0x10_0000_0000_0000, count % 0x10_0000_0000_0000;
    assert count * PAGE_SIZE == TWO64 * q + PAGE_SIZE * r;
    assert (TWO64 * q + PAGE_SIZE * r) % TWO64 == PAGE_SIZE * r;
  }

  /** The wrap-around takes off a multiple of 2^64, hence of a page. */
  lemma {:induction false} WrappedPages(count: nat, wraps: nat)
    requires wraps == count * PAGE_SIZE / TWO64
    ensures count * PAGE_SIZE % TWO64 == PAGE_SIZE * (count - 0x10_0000_0000_0000 * wraps)
  {
  }

  /** The virtual address through which physical address `phys` is reached. */
  function ToVirt(phys: Word, hhdm: Word): Word {
    (phys + hhdm) % TWO64
  }

  /** The physical address that the direct map gives to virtual address `virt`. */
  function ToPhys(virt: Word, hhdm: Word): Word {
    (virt - hhdm) % TWO64
  }

  /** Physical memory, one element per 64-bit word. */
  type Memory = seq<Word>

  /** Memory with the `n` words from index `from` on cleared. */
  function Zeroed(m: Memory, from: nat, n: nat): (z: Memory)
    requires from + n <= |m|
    ensures |z| == |m|
    ensures forall k :: 0 <= k < |m| ==> z[k] == if from <= k < from + n then 0 else m[k]
  {
    m[..from] + seq(n, _ => 0) + m[from + n..]
  }

  /** Going through the direct map and stepping `k` words reaches the `k`-th word of the
      physical block, whatever the offset, even where the virtual address wraps. */
  lemma {:induction false} DirectMapWord(phys: Word, hhdm: Word, k: nat)
    requires phys + WORD_BYTES * k < TWO64
    ensures ToPhys((ToVirt(phys, hhdm) + WORD_BYTES * k) % TWO64, hhdm) == phys + WORD_BYTES * k
  {
    var a := phys + hhdm;
    var v := if a < TWO64 then a else a - TWO64;
    assert ToVirt(phys, hhdm) == v;
    var s := v + WORD_BYTES * k;
    assert s % TWO64 == if s < TWO64 then s else s - TWO64;
  }
}
