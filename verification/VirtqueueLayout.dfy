// Where virtq_create of dev/virtio.cpp puts the parts of a queue inside the memory it
// allocates, against the layout of section 2.4.2 of VIRTIO 1.0, which the device uses
// to find them from the address of the descriptor table alone.
module VirtqueueLayout {
  import opened Arithmetic

  const PAGE: int := 4096

  function Align(x: int): int { (x + (PAGE - 1)) / PAGE * PAGE }

  function DescSize(q: int): int { 16 * q }
  function AvailSize(q: int): int { 4 + 2 * q }
  function UsedSize(q: int): int { 4 + 8 * q }
  function CtxSize(q: int): int { 8 * q }

  function AllocSize(q: int): int {
    Align(DescSize(q) + AvailSize(q)) + Align(UsedSize(q)) + CtxSize(q) + (PAGE - 1)
  }

  // The start of each part, from the start of the allocated memory.
  function Desc(mem: int): int { Align(mem) }
  function Avail(mem: int, q: int): int { Desc(mem) + DescSize(q) }
  function Used(mem: int, q: int): int { Desc(mem) + Align(DescSize(q) + AvailSize(q)) }
  function Ctx(mem: int, q: int): int { Used(mem, q) + Align(UsedSize(q)) }

  lemma AlignUp(x: int)
    ensures x <= Align(x) < x + PAGE && Align(x) % PAGE == 0
  {
    var k := (x + (PAGE - 1)) / PAGE;
    ModUnique(PAGE, Align(x), k, 0);
  }

  lemma AlignMore(x: int)
    requires x % 2 == 0
    ensures Align(x) == Align(x + 2) <==> x % PAGE != 0
  {
    var k, r := x / PAGE, x % PAGE;
    assert x == PAGE * k + r;
    assert r % 2 == 0;
    if r == 0 {
      ModUnique(PAGE, x + (PAGE - 1), k, PAGE - 1);
      ModUnique(PAGE, x + 2 + (PAGE - 1), k + 1, 1);
    } else {
      ModUnique(PAGE, x + (PAGE - 1), k + 1, r - 1);
      ModUnique(PAGE, x + 2 + (PAGE - 1), k + 1, r + 1);
    }
  }

  // What a page boundary is also a multiple of.
  lemma PageMultiple(a: int)
    requires a % PAGE == 0
    ensures a % 8 == 0 && a % 2 == 0
  {
    ModUnique(8, a, 512 * (a / PAGE), 0);
    ModUnique(2, a, 2048 * (a / PAGE), 0);
  }

  lemma PageSum(a: int, b: int)
    requires a % PAGE == 0 && b % PAGE == 0
    ensures (a + b) % PAGE == 0
  {
    ModUnique(PAGE, a + b, a / PAGE + b / PAGE, 0);
  }

  // The parts follow each other without overlap inside the allocated memory.
  lemma PartsFit(mem: nat, q: nat)
    ensures mem <= Desc(mem)
    ensures Desc(mem) + 16 * q <= Avail(mem, q)
    ensures Avail(mem, q) + 4 + 2 * q <= Used(mem, q)
    ensures Used(mem, q) + 4 + 8 * q <= Ctx(mem, q)
    ensures Ctx(mem, q) + 8 * q <= mem + AllocSize(q)
  {
    hide Align;
    AlignUp(mem);
    AlignUp(DescSize(q) + AvailSize(q));
    AlignUp(UsedSize(q));
  }

  // They are aligned as the device and the processor want them.
  lemma PartsAligned(mem: nat, q: nat)
    ensures Desc(mem) % PAGE == 0 && Avail(mem, q) % 2 == 0
    ensures Used(mem, q) % PAGE == 0 && Ctx(mem, q) % 8 == 0
  {
    hide Align;
    AlignUp(mem);
    AlignUp(DescSize(q) + AvailSize(q));
    AlignUp(UsedSize(q));
    PageSum(Align(mem), Align(DescSize(q) + AvailSize(q)));
    PageSum(Used(mem, q), Align(UsedSize(q)));
    PageMultiple(Ctx(mem, q));
    PageMultiple(Align(mem));
    EvenSum(Align(mem), 8 * q);
  }

  lemma EvenSum(a: int, b: int)
    requires a % 2 == 0
    ensures (a + 2 * b) % 2 == 0
  {
  }

  // The standard reserves one more 16-bit field behind each ring.
  function StandardUsed(mem: int, q: int): int { Desc(mem) + Align(16 * q + 2 * (3 + q)) }
  function StandardEnd(mem: int, q: int): int { StandardUsed(mem, q) + Align(2 * 3 + 8 * q) }

  lemma SameLayoutExactlyWhen(mem: nat, q: nat)
    ensures Used(mem, q) == StandardUsed(mem, q) <==> 18 * q % PAGE != 4092
    ensures Used(mem, q) == StandardUsed(mem, q) ==> Ctx(mem, q) == StandardEnd(mem, q)
  {
    hide Align;
    Gaps(q);
    assert DescSize(q) + AvailSize(q) == 18 * q + 4 && 16 * q + 2 * (3 + q) == 18 * q + 4 + 2;
    assert UsedSize(q) == 8 * q + 4 && 2 * 3 + 8 * q == 8 * q + 4 + 2;
  }

  lemma Gaps(q: nat)
    ensures Align(18 * q + 4) == Align(18 * q + 4 + 2) <==> 18 * q % PAGE != 4092
    ensures Align(8 * q + 4) == Align(8 * q + 4 + 2)
  {
    hide Align;
    Even(9 * q + 2);
    Even(4 * q + 2);
    AlignMore(2 * (9 * q + 2));
    AlignMore(2 * (4 * q + 2));
    PageGap(18 * q);
    NoUsedGap(q);
  }

  lemma Even(x: int)
    ensures 2 * x % 2 == 0
  {
  }

  lemma NoUsedGap(q: nat)
    ensures (8 * q + 4) % PAGE != 0
  {
    ModUnique(8, 8 * q + 4, q, 4);
    ModMod(PAGE, 8, 8 * q + 4);
  }

  lemma PageGap(x: int)
    ensures (x + 4) % PAGE == 0 <==> x % PAGE == 4092
  {
    var k, r := x / PAGE, x % PAGE;
    assert x == PAGE * k + r;
    if r < 4092 { ModUnique(PAGE, x + 4, k, r + 4); } else { ModUnique(PAGE, x + 4, k + 1, r - 4092); }
  }

  lemma {:induction false} OddDivisor(q: nat, c: nat, n: nat)
    requires q * c == Pow2(n) && q % 2 == 1
    ensures q == 1
  {
    if n == 0 {
      assert c > 0 && q * (c - 1) >= 0;
    } else {
      assert c % 2 == 0 by {
        if c % 2 == 1 { OddProduct(q, c); }
      }
      assert q * c == 2 * (q * (c / 2));
      OddDivisor(q, c / 2, n - 1);
    }
  }

  lemma OddProduct(a: nat, b: nat)
    requires a % 2 == 1 && b % 2 == 1
    ensures a * b % 2 == 1
  {
    var x, y := a / 2, b / 2;
    assert a * b == 2 * (2 * (x * y) + x + y) + 1;
  }

  lemma PowersOfTwo()
    ensures Pow2(16) == 0x1_0000 && Pow2(15) == 0x8000
  {
    assert Pow2(2) == 4;
    assert Pow2(4) == 16;
    assert Pow2(6) == 64;
    assert Pow2(8) == 256;
    assert Pow2(10) == 1024;
    assert Pow2(12) == 4096;
    assert Pow2(14) == 16384;
  }

  lemma NoGap(q: nat)
    requires q == 1 || q == 2 || q % 4 == 0
    ensures 18 * q % PAGE != 4092
  {
    if q % 4 == 0 {
      ModUnique(8, 18 * q, 9 * (q / 4), 0);
      ModMod(PAGE, 8, 18 * q);
    }
  }

  // Every queue size the device may offer gives the standard's layout.
  lemma LayoutIsStandard(mem: nat, q: nat)
    requires 0 < q <= 0x8000 && 0x1_0000 % q == 0
    ensures Used(mem, q) == StandardUsed(mem, q) && Ctx(mem, q) == StandardEnd(mem, q)
  {
    hide Used, StandardUsed, Ctx, StandardEnd;
    Quotient(0x1_0000, q);
    SizeShape(q, 0x1_0000 / q);
    NoGap(q);
    SameLayoutExactlyWhen(mem, q);
  }

  lemma Quotient(x: nat, q: nat)
    requires q > 0 && x % q == 0
    ensures q * (x / q) == x && x / q >= 0
  {
  }

  lemma SizeShape(q: nat, c: nat)
    requires q * c == 0x1_0000
    ensures q == 1 || q == 2 || q % 4 == 0
  {
    PowersOfTwo();
    if q % 2 == 1 {
      OddDivisor(q, c, 16);
    } else if q % 4 == 2 {
      assert q * c == 2 * (q / 2 * c);
      OddDivisor(q / 2, c, 15);
    }
  }

  lemma OddSizeExample()
    ensures Used(0, 910) + PAGE == StandardUsed(0, 910)
  {
  }
}
