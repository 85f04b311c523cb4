/** Constants and word arithmetic shared by the models of the kernel's C files. */
module Machine {

  // One past the largest value of a 64-bit unsigned word.
  const W64: nat := 0x1_0000_0000_0000_0000

  // One past the largest value of a 32-bit unsigned word.
  const W32: nat := 0x1_0000_0000

  type Word = w: nat | w < 0x1_0000_0000_0000_0000 witness 0

  const PAGE_2M_SIZE: nat := 0x20_0000
  const PAGE_OFFSET: nat := 0xffff_8000_0000_0000

  // A 64-bit running total is its exact value, modulo 2^64.
  lemma WrapAdd(total: nat, n: nat)
    ensures (total % W64 + n) % W64 == (total + n) % W64
  {
    var q, r := total / W64, total % W64;
    assert total + n == W64 * q + (r + n);
    assert (total + n) % W64 == (r + n) % W64 by {
      var q', r' := (r + n) / W64, (r + n) % W64;
      assert total + n == W64 * (q + q') + r';
    }
  }

  // Kernel virtual address of a physical one.
  function PhyToVirt(phys: nat): nat {
    phys + PAGE_OFFSET
  }
}
