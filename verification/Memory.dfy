// Byte-addressed memory holding 64-bit words, as the kernel's headers see it.
// A store destroys every word it partly overlaps, so a word that can still be
// loaded was written whole and has not been touched since.
module Memory {

  type Words = map<int, int>

  const NULL: int := 0

  predicate Clear(a: int, b: int) {
    a + 8 <= b || b + 8 <= a
  }

  function Store(m: Words, a: int, v: int): (r: Words)
    ensures a in r && r[a] == v
    ensures forall b :: b in r <==> b == a || (b in m && Clear(a, b))
    ensures forall b :: b in r && b != a ==> r[b] == m[b]
  {
    (map b | b in m && Clear(a, b) :: m[b])[a := v]
  }
}
