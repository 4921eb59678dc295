// The fixed-point conversions of arch/x86_64/kvmclock.cpp between nanoseconds and
// time stamp counter ticks, with multiplier m and shift s published by the host.
module KvmClock {
  import opened Arithmetic
  import opened Common

  function Pos(s: int): nat { if s > 0 then s else 0 }

  function Neg(s: int): nat { if s < 0 then -s else 0 }

  // ns_to_tsc: (ns << 32) / m, shifted by -s.
  function Quotient(ns: nat, m: int): int
    requires m > 0
  {
    ns * M32 / m
  }

  function NsToTsc(ns: nat, m: int, s: int): int
    requires m > 0
  {
    if s < 0 then Quotient(ns, m) * Pow2(-s) % M64 else Quotient(ns, m) / Pow2(s)
  }

  // The divide instruction traps unless the quotient fits in 64 bits, the left shift
  // must not lose bits, and a 64-bit shift count is below 64.
  predicate Fits(ns: nat, m: int, s: int)
    requires m > 0
  {
    -64 < s < 64 && Quotient(ns, m) < M64 && Quotient(ns, m) * Pow2(Neg(s)) < M64
  }

  // The arithmetic of systime_ns on a tick count: shift by s, multiply by m, drop
  // 32 bits.
  function TscToNs(t: nat, m: int, s: int): int {
    Unshifted(t, s) % M64 * m / M32 % M64
  }

  function Unshifted(t: nat, s: int): int {
    if s < 0 then t / Pow2(-s) else t * Pow2(s)
  }

  function CeilDiv(a: int, b: int): int
    requires b > 0
  {
    (a + b - 1) / b
  }

  // ---- division facts -----------------------------------------------------------------

  lemma MulLe(a: int, b: int, c: int)
    requires a <= b && c >= 0
    ensures a * c <= b * c
  {
  }

  lemma DivBounds(x: int, n: int)
    requires n > 0
    ensures x / n * n <= x < x / n * n + n
  {
  }

  lemma DivMonotone(x: int, y: int, n: int)
    requires x <= y && n > 0
    ensures x / n <= y / n
  {
    DivBounds(x, n);
    DivBounds(y, n);
    if x / n >= y / n + 1 { MulLe(y / n + 1, x / n, n); }
  }

  lemma DivExact(x: int, n: int)
    requires n > 0
    ensures x * n / n == x
  {
    ModUnique(n, x * n, x, 0);
  }

  // ---- what the conversion computes -------------------------------------------------------

  // The tick count is the largest one, in units of 2^max(-s,0) ticks, that does not
  // exceed ns * 2^32 / (m * 2^s).
  lemma TicksExact(ns: nat, m: int, s: int)
    requires m > 0 && Fits(ns, m, s)
    ensures s >= 0 ==>
              var t := NsToTsc(ns, m, s);
              t * Pow2(s) * m <= ns * 0x1_0000_0000 < (t + 1) * Pow2(s) * m
    ensures s < 0 ==>
              var t := NsToTsc(ns, m, s);
              && t % Pow2(-s) == 0
              && t / Pow2(-s) * m <= ns * 0x1_0000_0000 < (t / Pow2(-s) + 1) * m
  {
    NothingLost(ns, m, s);
    hide Pow2;
    var q := Quotient(ns, m);
    DivBounds(ns * M32, m);
    assert q * m <= ns * M32 < (q + 1) * m;
    if s >= 0 {
      var t, p := NsToTsc(ns, m, s), Pow2(s);
      DivBounds(q, p);
      MulLe(t * p, q, m);
      assert t * p + p == (t + 1) * p;
      MulLe(q + 1, (t + 1) * p, m);
    } else {
      ModUnique(Pow2(-s), q * Pow2(-s), q, 0);
    }
  }

  // ---- monotone ------------------------------------------------------------------------

  lemma NsToTscMonotone(a: nat, b: nat, m: int, s: int)
    requires a <= b && m > 0 && Fits(b, m, s)
    ensures Fits(a, m, s) && NsToTsc(a, m, s) <= NsToTsc(b, m, s)
  {
    DivMonotone(a * M32, b * M32, m);
    var qa, qb := Quotient(a, m), Quotient(b, m);
    assert qa >= 0 by { DivMonotone(0, a * M32, m); }
    MulLe(qa, qb, Pow2(Neg(s)));
    MulLe(0, qa, Pow2(Neg(s)));
    if s >= 0 { DivMonotone(qa, qb, Pow2(s)); }
  }

  // ---- there and back --------------------------------------------------------------------

  function Shifted(q: nat, s: int): int {
    if s < 0 then q * Pow2(-s) else q / Pow2(s)
  }

  // The tick count after undoing the shift: at most the quotient and less than
  // 2^max(s,0) below it.
  lemma ShiftBack(q: nat, s: int)
    ensures Shifted(q, s) >= 0
    ensures var u := Unshifted(Shifted(q, s), s);
            q - Pow2(Pos(s)) < u <= q && u >= 0
  {
    hide Pow2;
    if s < 0 {
      MulLe(0, q, Pow2(-s));
      DivExact(q, Pow2(-s));
    } else {
      DivBounds(q, Pow2(s));
      DivMonotone(0, q, Pow2(s));
      MulLe(0, q / Pow2(s), Pow2(s));
    }
  }

  // Multiplying u ticks, up to d - 1 below the quotient, back to nanoseconds.
  lemma ScaleBack(ns: nat, m: int, u: int, d: int)
    requires m > 0 && Quotient(ns, m) - d < u <= Quotient(ns, m) && u >= 0 && d > 0
    ensures u * m / M32 <= ns
    ensures u * m / M32 >= ns - CeilDiv(d * m, M32)
  {
    var q := Quotient(ns, m);
    DivBounds(ns * M32, m);
    MulLe(u, q, m);
    DivMonotone(u * m, ns * M32, M32);
    DivExact(ns, M32);
    MulLe(q - d + 1, u, m);
    assert (q - d + 1) * m == q * m - d * m + m;
    assert u * m > ns * M32 - d * m;
    var c := CeilDiv(d * m, M32);
    DivBounds(d * m + M32 - 1, M32);
    assert c * M32 >= d * m;
    assert u * m > (ns - c) * M32;
    DivMonotone((ns - c) * M32, u * m, M32);
    DivExact(ns - c, M32);
  }

  // A conversion there and back never gains time and loses at most
  // ceil(2^max(s,0) * m / 2^32) nanoseconds.
  lemma RoundTrip(ns: nat, m: int, s: int)
    requires ns < M64 && 0 < m < M32 && Fits(ns, m, s)
    ensures NsToTsc(ns, m, s) >= 0
    ensures var back := TscToNs(NsToTsc(ns, m, s), m, s);
            ns - CeilDiv(Pow2(Pos(s)) * m, M32) <= back <= ns
  {
    hide Pow2, Quotient, Shifted, Unshifted, TscToNs, CeilDiv;
    NothingLost(ns, m, s);
    var q := Quotient(ns, m);
    ShiftBack(q, s);
    var u := Unshifted(Shifted(q, s), s);
    ScaleBack(ns, m, u, Pow2(Pos(s)));
    NoWrapBack(Shifted(q, s), m, s);
  }

  lemma NothingLost(ns: nat, m: int, s: int)
    requires m > 0 && Fits(ns, m, s)
    ensures 0 <= Quotient(ns, m) < M64 && NsToTsc(ns, m, s) == Shifted(Quotient(ns, m), s)
  {
    hide Pow2;
    DivMonotone(0, ns * M32, m);
    MulLe(0, Quotient(ns, m), Pow2(Neg(s)));
  }

  lemma NoWrapBack(t: nat, m: int, s: int)
    requires m > 0 && 0 <= Unshifted(t, s) < M64 && Unshifted(t, s) * m / M32 < M64
    ensures TscToNs(t, m, s) == Unshifted(t, s) * m / M32
  {
    hide Unshifted;
    var u := Unshifted(t, s);
    MulLe(0, u, m);
    DivMonotone(0, u * m, M32);
    assert u % M64 == u && u * m / M32 % M64 == u * m / M32;
  }

  lemma OneTick(m: int)
    requires 0 < m < M32 && M32 % m != 0
    ensures 0 <= Quotient(1, m) <= M32 && 0 <= Quotient(1, m) * m < M32
  {
    var q := Quotient(1, m);
    DivBounds(M32, m);
    DivMonotone(0, M32, m);
    MulLe(1, m, q);
    MulLe(0, q, m);
    assert q * m == M32 - M32 % m;
  }

  // The bound is reached: with no shift, one nanosecond is lost for every multiplier
  // that does not divide 2^32.
  lemma BoundReached(m: int)
    requires 0 < m < M32 && M32 % m != 0
    ensures Fits(1, m, 0)
    ensures NsToTsc(1, m, 0) >= 0
    ensures TscToNs(NsToTsc(1, m, 0), m, 0) == 0 == 1 - CeilDiv(Pow2(0) * m, M32)
  {
    OneTick(m);
    hide Quotient;
    var q := Quotient(1, m);
    assert NsToTsc(1, m, 0) == q && Unshifted(q, 0) == q;
    assert q % M64 == q;
  }

  // ---- reading the shared parameters ----------------------------------------------------

  // What the host publishes: a 32-bit version and the fields it guards.
  datatype Info = Info(version: nat, timestamp: nat, systemTime: nat, mul: nat, shift: int)

  // One step of the host: the version counts up, and the fields move only while the
  // version is odd.
  predicate HostStep(a: Info, b: Info) {
    || (b.version == a.version + 1 && SameFields(a, b))
    || (b.version == a.version && (a.version % 2 == 0 ==> SameFields(a, b)))
  }

  predicate SameFields(a: Info, b: Info) {
    a.timestamp == b.timestamp && a.systemTime == b.systemTime && a.mul == b.mul && a.shift == b.shift
  }

  predicate Linked(h: seq<Info>, i: nat)
    requires i + 1 < |h|
  {
    HostStep(h[i], h[i + 1])
  }

  predicate History(h: seq<Info>) {
    forall i: nat :: i + 1 < |h| ==> Linked(h, i)
  }

  lemma {:induction false} VersionGrows(h: seq<Info>, i: nat, j: nat)
    requires History(h) && i <= j < |h|
    ensures h[i].version <= h[j].version
    ensures h[i].version == h[j].version && h[i].version % 2 == 0 ==> SameFields(h[i], h[j])
    decreases j - i
  {
    if i < j {
      assert Linked(h, i);
      VersionGrows(h, i + 1, j);
    }
  }

  // A pass of the retry loop reads the version at moment i, each field at a moment from
  // at[0] to at[3], then the version again at j for its parity and at k for equality with
  // the first reading, all modulo 2^32. When the pass ends the loop, the four fields are
  // those of one even version, unless 2^32 updates went by meanwhile.
  lemma ConsistentSnapshot(h: seq<Info>, i: nat, at: seq<nat>, j: nat, k: nat)
    requires History(h) && i <= j <= k < |h|
    requires |at| == 4 && forall n :: 0 <= n < 4 ==> i <= at[n] <= j
    requires h[k].version < h[i].version + M32
    requires h[j].version % M32 % 2 == 0 && h[k].version % M32 == h[i].version % M32
    ensures h[i].version % 2 == 0
    ensures h[at[0]].timestamp == h[i].timestamp && h[at[1]].systemTime == h[i].systemTime
    ensures h[at[2]].mul == h[i].mul && h[at[3]].shift == h[i].shift
  {
    hide History, SameFields;
    VersionGrows(h, i, j);
    VersionGrows(h, j, k);
    SameVersion(h[i].version, h[j].version, h[k].version);
    ReadBetween(h, i, at[0], j);
    ReadBetween(h, i, at[1], j);
    ReadBetween(h, i, at[2], j);
    ReadBetween(h, i, at[3], j);
  }

  lemma SameVersion(a: nat, b: nat, c: nat)
    requires a <= b <= c < a + M32 && b % M32 % 2 == 0 && c % M32 == a % M32
    ensures a == b && a % 2 == 0
  {
    if a < c { RemaindersDiffer(M32, a, c); }
    ModMod(M32, 2, b);
  }

  lemma ReadBetween(h: seq<Info>, i: nat, n: nat, j: nat)
    requires History(h) && i <= n <= j < |h| && h[i].version == h[j].version && h[i].version % 2 == 0
    ensures h[n].timestamp == h[i].timestamp && h[n].systemTime == h[i].systemTime
    ensures h[n].mul == h[i].mul && h[n].shift == h[i].shift
  {
    VersionGrows(h, i, n);
    VersionGrows(h, n, j);
  }

  // ---- the clock reading ------------------------------------------------------------------

  // systime_ns at tick count now, from one snapshot.
  function SystemTime(p: Info, now: nat): int {
    (TscToNs((now - p.timestamp) % M64, p.mul, p.shift) + p.systemTime) % M64
  }

  predicate ReadingFits(p: Info, now: nat) {
    && p.timestamp <= now < M64 && 0 < p.mul < M32 && -64 < p.shift < 64
    && Unshifted(now - p.timestamp, p.shift) < M64
    && Unshifted(now - p.timestamp, p.shift) * p.mul / M32 + p.systemTime < M64
  }

  lemma UnshiftedMonotone(a: nat, b: nat, s: int)
    requires a <= b
    ensures 0 <= Unshifted(a, s) <= Unshifted(b, s)
  {
    hide Pow2;
    if s < 0 {
      DivMonotone(0, a, Pow2(-s));
      DivMonotone(a, b, Pow2(-s));
    } else {
      MulLe(0, a, Pow2(s));
      MulLe(a, b, Pow2(s));
    }
  }

  lemma ReadingExact(p: Info, now: nat)
    requires ReadingFits(p, now)
    ensures SystemTime(p, now) == Unshifted(now - p.timestamp, p.shift) * p.mul / M32 + p.systemTime
  {
    hide Unshifted, TscToNs;
    var u := Unshifted(now - p.timestamp, p.shift);
    UnshiftedMonotone(0, now - p.timestamp, p.shift);
    assert u >= 0;
    assert (now - p.timestamp) % M64 == now - p.timestamp;
    NoWrapBack(now - p.timestamp, p.mul, p.shift);
    MulLe(0, u, p.mul);
    DivMonotone(0, u * p.mul, M32);
  }

  // Readings from one snapshot never go back.
  lemma ClockMonotone(p: Info, a: nat, b: nat)
    requires a <= b && ReadingFits(p, a) && ReadingFits(p, b)
    ensures SystemTime(p, a) <= SystemTime(p, b)
  {
    ReadingExact(p, a);
    ReadingExact(p, b);
    hide Unshifted;
    UnshiftedMonotone(a - p.timestamp, b - p.timestamp, p.shift);
    var ua, ub := Unshifted(a - p.timestamp, p.shift), Unshifted(b - p.timestamp, p.shift);
    MulLe(ua, ub, p.mul);
    DivMonotone(ua * p.mul, ub * p.mul, M32);
  }
}
