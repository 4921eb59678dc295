// ip_checksum of net/include/net/ipv4.hpp: 16-bit words are read in the machine's
// little-endian order, summed in 32 bits, and the two halves of the sum are added
// once.
module Checksum {
  import opened Arithmetic
  import opened Common

  type byte = x: int | 0 <= x < 256

  function Word(lo: byte, hi: byte): (w: int)
    ensures 0 <= w < M16
  {
    lo as int + 256 * (hi as int)
  }

  // The sum of the words; an odd last byte counts as a word of its own.
  function Sum(data: seq<byte>): nat {
    if |data| == 0 then 0
    else if |data| == 1 then data[0]
    else Word(data[0], data[1]) + Sum(data[2..])
  }

  lemma {:induction false} SumBound(data: seq<byte>)
    ensures 2 * Sum(data) <= 65535 * (|data| + 1)
  {
    if |data| > 1 { SumBound(data[2..]); }
  }

  function Halves(x: int): int { x % M16 + x / M16 }

  function Complement(x: int): int { 65535 - x % M16 }

  function IpChecksum(data: seq<byte>, initial: int): (c: int)
    ensures 0 <= c < M16
  {
    Complement(Halves((initial + Sum(data)) % M32))
  }

  // Adding the two halves does not carry out of 16 bits.
  predicate NoCarry(x: int) { Halves(x) < M16 }

  // ---- the checksum of RFC 1071, section 1 -------------------------------------------

  // The one's complement sum: carries are added back until none is left.
  function OnesSum(x: nat): (r: nat)
    ensures r < M16
    decreases x
  {
    if x < M16 then x else OnesSum(Halves(x))
  }

  function Rfc1071(data: seq<byte>, initial: nat): int {
    65535 - OnesSum(initial + Sum(data))
  }

  // Folding once gives the standard checksum exactly when it leaves no carry.
  lemma FoldOnceIsRfcExactlyWhen(data: seq<byte>, initial: nat)
    requires initial + Sum(data) < M32
    ensures IpChecksum(data, initial) == Rfc1071(data, initial) <==> NoCarry(initial + Sum(data))
  {
    hide Sum;
    FoldOnce(initial + Sum(data));
    assert (initial + Sum(data)) % M32 == initial + Sum(data);
  }

  lemma FoldOnce(x: nat)
    requires x < M32
    ensures Complement(Halves(x)) == 65535 - OnesSum(x) <==> NoCarry(x)
  {
    hide OnesSum;
    var y := Halves(x);
    if x < M16 {
      ModUnique(M16, x, 0, x);
      FoldedSmall(x);
    } else {
      FoldedOnce(x);
      if y < M16 {
        ModUnique(M16, y, 0, y);
        FoldedSmall(y);
      } else {
        ModUnique(M16, y, 1, y - M16);
        FoldedOnce(y);
        FoldedSmall(y - 65535);
      }
    }
  }

  lemma FoldedSmall(x: nat)
    requires x < M16
    ensures OnesSum(x) == x
  {
  }

  lemma FoldedOnce(x: nat)
    requires x >= M16
    ensures OnesSum(x) == OnesSum(Halves(x))
  {
  }

  // A message whose checksum field holds the computed value checks out as zero
  // exactly when the computation left no carry: with a carry it is off by one.
  lemma VerifiesExactlyWhen(x: nat)
    requires x < M32 - M16
    ensures Complement(Halves(x + Complement(Halves(x)))) == 0 <==> NoCarry(x)
  {
    var h, l := x / M16, x % M16;
    var c := Complement(Halves(x));
    if NoCarry(x) {
      assert x + c == h * M16 + (65535 - h);
    } else {
      assert c == 2 * M16 - 1 - (h + l);
      assert x + c == (h + 1) * M16 + (65535 - h);
    }
  }

  lemma {:induction false} SumConcat(a: seq<byte>, b: seq<byte>)
    requires |a| % 2 == 0
    ensures Sum(a + b) == Sum(a) + Sum(b)
  {
    if a == [] {
      assert a + b == b;
    } else {
      SumConcat(a[2..], b);
      assert (a + b)[2..] == a[2..] + b;
    }
  }

  // Writing the word w into a field that was zero adds it to the sum.
  lemma SumWithField(a: seq<byte>, w: int, b: seq<byte>)
    requires |a| % 2 == 0 && 0 <= w < M16
    ensures Sum(a + [w % 256, w / 256] + b) == Sum(a + [0, 0] + b) + w
  {
    SumConcat(a + [w % 256, w / 256], b);
    SumConcat(a, [w % 256, w / 256]);
    SumConcat(a + [0, 0], b);
    SumConcat(a, [0, 0]);
    WordSum(w % 256, w / 256);
    WordSum(0, 0);
  }

  lemma WordSum(x: byte, y: byte)
    ensures Sum([x, y]) == Word(x, y)
  {
    assert [x, y][2..] == [];
  }

  // ---- any receiver that follows the standard -------------------------------------------

  // The sum of the words in network byte order, an odd last byte padded with zero.
  function BeSum(data: seq<byte>): (s: nat) {
    if |data| == 0 then 0
    else if |data| == 1 then 256 * (data[0] as int)
    else 256 * (data[0] as int) + data[1] + BeSum(data[2..])
  }

  function SecondBytes(data: seq<byte>): nat {
    if |data| <= 1 then 0 else data[1] as int + SecondBytes(data[2..])
  }

  // The two byte orders give sums that agree modulo 65535, up to a factor of 256.
  lemma {:induction false} ByteOrder(data: seq<byte>)
    ensures 256 * Sum(data) == BeSum(data) + 65535 * SecondBytes(data)
  {
    if |data| > 1 { ByteOrder(data[2..]); }
  }

  // The one's complement sum is all ones exactly for the positive multiples of 65535.
  lemma {:induction false} AllOnes(x: nat)
    ensures OnesSum(x) == 65535 <==> x > 0 && x % 65535 == 0
    decreases x
  {
    if x >= M16 {
      AllOnes(Halves(x));
      assert x == Halves(x) + 65535 * (x / M16);
      ModUnique(65535, x, Halves(x) / 65535 + x / M16, Halves(x) % 65535);
    }
  }

  lemma MultiplesAgree(sum: nat, be: nat, k: nat)
    requires 256 * sum == be + 65535 * k
    ensures sum % 65535 == 0 <==> be % 65535 == 0
    ensures sum == 0 ==> be == 0
  {
    if sum % 65535 == 0 {
      ModUnique(65535, be, 256 * (sum / 65535) - k, 0);
    }
    if be % 65535 == 0 {
      var j := be / 65535 + k;
      assert 256 * sum == 65535 * j;
      assert sum == 65535 * (256 * j - sum);
      ModUnique(65535, sum, 256 * j - sum, 0);
    }
  }

  lemma ChecksumMultiple(x: nat)
    requires x < M32
    ensures (x + Complement(Halves(x))) % 65535 == 0 <==> NoCarry(x)
    ensures x + Complement(Halves(x)) > 0
  {
    var h := x / M16;
    var c := Complement(Halves(x));
    assert x == Halves(x) + 65535 * h;
    if NoCarry(x) {
      ModUnique(65535, x + c, h + 1, 0);
    } else {
      assert c == 65535 - (Halves(x) - M16);
      ModUnique(65535, x + c, h + 2, 1);
    }
  }

  // Bytes whose words sum to x, with the checksum of x among them: any receiver that
  // follows section 1 of RFC 1071 finds them correct exactly when the fold left no carry.
  lemma StandardVerifies(all: seq<byte>, x: nat)
    requires x < M32 && Sum(all) == x + Complement(Halves(x))
    ensures OnesSum(BeSum(all)) == 0xFFFF <==> NoCarry(x)
  {
    hide Sum, BeSum, OnesSum, Halves, Complement, NoCarry, SecondBytes;
    ChecksumMultiple(x);
    ByteOrder(all);
    MultiplesAgree(Sum(all), BeSum(all), SecondBytes(all));
    AllOnes(BeSum(all));
    Positive(all);
  }

  // The sum of a message behind the bytes pre, once its checksum field is filled in; zero
  // is the message with a zero field.
  lemma FilledSum(pre: seq<byte>, a: seq<byte>, b: seq<byte>, zero: seq<byte>, full: seq<byte>)
    requires |pre| % 2 == 0 && |a| % 2 == 0 && Sum(pre) + Sum(zero) < M32 && zero == a + [0, 0] + b
    requires var c := IpChecksum(zero, Sum(pre)); full == a + [c % 256, c / 256] + b
    ensures var x := Sum(pre) + Sum(zero); Sum(pre + full) == x + Complement(Halves(x))
  {
    hide Sum, Halves, Complement;
    assert (Sum(pre) + Sum(zero)) % M32 == Sum(pre) + Sum(zero);
    SumConcat(pre, full);
    SumWithField(a, IpChecksum(zero, Sum(pre)), b);
  }

  lemma {:induction false} Positive(data: seq<byte>)
    requires Sum(data) > 0
    ensures BeSum(data) > 0
  {
    if |data| > 1 && Word(data[0], data[1]) == 0 { Positive(data[2..]); }
  }

  // The accumulating loop.
  method Accumulate(data: seq<byte>, initial: int) returns (csum: int)
    requires 0 <= initial < M32
    ensures csum == (initial + Sum(data)) % M32
  {
    hide Sum, Word;
    csum := initial;
    var i := 0;
    Nothing(data);
    while i < |data| / 2
      invariant 0 <= i <= |data| / 2
      invariant csum == (initial + Sum(data[..2 * i])) % M32
    {
      PrefixSum(data, i);
      AddMod32(initial + Sum(data[..2 * i]), Word(data[2 * i], data[2 * i + 1]));
      csum := (csum + Word(data[2 * i], data[2 * i + 1])) % M32;
      i := i + 1;
    }
    LastByte(data);
    if |data| % 2 != 0 {
      AddMod32(initial + Sum(data[..2 * i]), data[2 * i]);
      csum := (csum + data[2 * i]) % M32;
    }
  }

  method Compute(data: seq<byte>, initial: int) returns (c: int)
    requires 0 <= initial < M32
    ensures c == IpChecksum(data, initial)
  {
    var csum := Accumulate(data, initial);
    c := Complement(csum % M16 + csum / M16);
  }

  lemma Nothing(data: seq<byte>)
    ensures data[..0] == [] && Sum([]) == 0
  {
  }

  lemma PrefixSum(data: seq<byte>, i: int)
    requires 0 <= i < |data| / 2
    ensures Sum(data[..2 * (i + 1)]) == Sum(data[..2 * i]) + Word(data[2 * i], data[2 * i + 1])
  {
    assert data[..2 * (i + 1)] == data[..2 * i] + [data[2 * i], data[2 * i + 1]];
    SumConcat(data[..2 * i], [data[2 * i], data[2 * i + 1]]);
    WordSum(data[2 * i], data[2 * i + 1]);
  }

  lemma LastByte(data: seq<byte>)
    ensures Sum(data) == Sum(data[..2 * (|data| / 2)]) + if |data| % 2 != 0 then data[|data| - 1] else 0
  {
    hide Sum;
    var n := 2 * (|data| / 2);
    assert n == if |data| % 2 != 0 then |data| - 1 else |data|;
    if |data| % 2 != 0 {
      OddEnd(data[..n], data[n]);
      assert data == data[..n] + [data[n]];
    } else {
      assert data == data[..n];
    }
  }

  lemma OddEnd(a: seq<byte>, x: byte)
    requires |a| % 2 == 0
    ensures Sum(a + [x]) == Sum(a) + x
  {
    SumConcat(a, [x]);
  }
}
