/**
 The hosts of an IPv4 prefix (internal/discovery/network.go:429-453), with the address arithmetic of
 net/netip that it relies on.
 */
module Cidr {
  import opened Common

  newtype Byte = b: int | 0 <= b < 256

  type Quad = s: seq<Byte> | |s| == 4 witness [0, 0, 0, 0]

  function Number(q: Quad): (n: nat)
    ensures n <= 0xFFFF_FFFF
  {
    q[0] as int * 0x100_0000 + q[1] as int * 0x1_0000 + q[2] as int * 0x100 + q[3] as int
  }

  function Pow2(n: nat): (p: nat)
    ensures p > 0
  {
    if n == 0 then 1 else 2 * Pow2(n - 1)
  }

  // ---- Setting bits -------------------------------------------------------------------------------------

  /** Bitwise or of two numbers. */
  function Or(a: nat, b: nat): nat {
    if a == 0 then b
    else if b == 0 then a
    else 2 * Or(a / 2, b / 2) + if a % 2 == 1 || b % 2 == 1 then 1 else 0
  }

  /** Setting a clear bit adds it. */
  lemma {:induction false} OrClearBit(a: nat, k: nat)
    requires a % Pow2(k + 1) < Pow2(k)
    ensures Or(a, Pow2(k)) == a + Pow2(k)
  {
    if a > 0 {
      if k == 0 {
        assert Pow2(1) == 2;
        assert Or(a / 2, 0) == a / 2;
      } else {
        var p := Pow2(k);
        assert Pow2(k + 1) == 2 * p && p == 2 * Pow2(k - 1);
        HalfMod(a, p);
        OrClearBit(a / 2, k - 1);
      }
    }
  }

  /** Halving a number halves its remainder by an even divisor. */
  lemma HalfMod(a: nat, p: nat)
    requires p > 0
    ensures a / 2 % p == a % (2 * p) / 2
  {
    var q, r := a / (2 * p), a % (2 * p);
    assert a == (p * q) * 2 + r;
    assert a / 2 == p * q + r / 2;
    DivModIs(a / 2, p, q, r / 2);
  }

  lemma MultipleMod(d: nat, q: nat)
    requires d > 0
    ensures d * q % d == 0
  {
    DivModIs(d * q, d, q, 0);
  }

  lemma Regroup(c: nat, d: nat, q: nat)
    ensures (c * d) * q == d * (c * q)
  {
  }

  lemma Factor(c: nat, d: nat, e: nat, b: nat, rest: nat)
    ensures c * (d * b) + c * (d * e) * rest == (c * d) * (b + e * rest)
  {
  }

  lemma ModLess(x: nat, d: nat)
    requires d > 0
    ensures 0 <= x % d <= x
  {
  }

  // ---- Prefixes -----------------------------------------------------------------------------------------

  datatype Prefix = Prefix(addr: Quad, bits: nat) {
    predicate Valid() {
      bits <= 32
    }

    function HostBits(): nat
      requires Valid()
    {
      32 - bits
    }
  }

  /** The byte that holds bit `i`, counted from the least significant. */
  function ByteOf(i: nat): nat
    requires i < 32
  {
    3 - i / 8
  }

  /** How many of the last `n` bits are in byte `j`. */
  function Share(n: nat, j: nat): (k: nat)
    requires j < 4
    ensures k <= 8
  {
    if n <= 8 * (3 - j) then 0 else if n >= 8 * (4 - j) then 8 else n - 8 * (3 - j)
  }

  /** netip.Prefix.Masked: the host bits cleared. */
  function Masked(p: Prefix): (r: Prefix)
    requires p.Valid()
    ensures r.bits == p.bits
  {
    p.(addr := seq(4, j requires 0 <= j < 4 => ClearLow(p.addr[j], Share(p.HostBits(), j))))
  }

  function ClearLow(b: Byte, k: nat): (r: Byte)
    ensures r as int == b as int - b as int % Pow2(k) == Pow2(k) * (b as int / Pow2(k))
  {
    ModLess(b as int, Pow2(k));
    Floor(b as int, Pow2(k));
    (b as int - b as int % Pow2(k)) as Byte
  }

  /** broadcastAddr: every host bit set, one by one. */
  method BroadcastAddr(p: Prefix) returns (last: Quad)
    requires p.Valid()
    ensures last == Broadcast(p)
  {
    var b := new Byte[4](i requires 0 <= i < 4 => p.addr[i]);
    var n := 32 - p.bits;
    for i := 0 to n
      invariant b[..] == SetBits(p.addr, i)
    {
      assert b[..][ByteOf(i)] == b[ByteOf(i)];
      b[3 - i / 8] := WithBit(b[3 - i / 8], i % 8);
    }
    last := b[..];
  }

  /** b |= 1 << k */
  function WithBit(b: Byte, k: nat): Byte
    requires k < 8
  {
    OrIsByte(b, k);
    Or(b as int, Pow2(k)) as Byte
  }

  function SetBits(q: Quad, n: nat): Quad
    requires n <= 32
  {
    if n == 0 then q else var r := SetBits(q, n - 1); r[ByteOf(n - 1) := WithBit(r[ByteOf(n - 1)], (n - 1) % 8)]
  }

  function Broadcast(p: Prefix): Quad
    requires p.Valid()
  {
    SetBits(p.addr, p.HostBits())
  }

  lemma OrIsByte(b: Byte, k: nat)
    requires k < 8
    ensures Or(b as int, Pow2(k)) < 256
  {
    Pows();
    OrBelow(b as int, Pow2(k), 8);
  }

  lemma {:induction false} OrBelow(a: nat, b: nat, n: nat)
    requires a < Pow2(n) && b < Pow2(n)
    ensures Or(a, b) < Pow2(n)
  {
    if a > 0 && b > 0 {
      OrBelow(a / 2, b / 2, n - 1);
    }
  }

  lemma Pows()
    ensures Pow2(0) == 1 && Pow2(1) == 2 && Pow2(2) == 4 && Pow2(3) == 8
    ensures Pow2(4) == 16 && Pow2(5) == 32 && Pow2(6) == 64 && Pow2(7) == 128 && Pow2(8) == 256
  {
  }

  // ---- The broadcast address ------------------------------------------------------------------------------

  lemma {:induction false} PowAdd(m: nat, n: nat)
    ensures Pow2(m + n) == Pow2(m) * Pow2(n)
  {
    if m > 0 {
      PowAdd(m - 1, n);
      assert Pow2(m + n) == 2 * Pow2(m - 1 + n);
      assert 2 * (Pow2(m - 1) * Pow2(n)) == (2 * Pow2(m - 1)) * Pow2(n);
    }
  }

  /** The host bits of the address are clear. */
  ghost predicate Clear(q: Quad, n: nat) {
    forall j | 0 <= j < 4 :: q[j] as int % Pow2(Share(n, j)) == 0
  }

  lemma MaskedClear(p: Prefix)
    requires p.Valid()
    ensures Clear(Masked(p).addr, p.HostBits())
  {
    hide Share, Pow2, ClearLow;
    forall j | 0 <= j < 4 ensures Masked(p).addr[j] as int % Pow2(Share(p.HostBits(), j)) == 0 {
      ClearLowMultiple(p.addr[j], Share(p.HostBits(), j));
      assert Masked(p).addr[j] == ClearLow(p.addr[j], Share(p.HostBits(), j));
    }
  }

  lemma ClearLowMultiple(b: Byte, k: nat)
    ensures ClearLow(b, k) as int % Pow2(k) == 0
  {
    hide Pow2;
    MultipleMod(Pow2(k), b as int / Pow2(k));
  }

  /** After `i` steps each byte has its share of the bits set. */
  lemma {:induction false} BytesAfter(q: Quad, n: nat, i: nat, j: nat)
    requires Clear(q, n) && i <= n <= 32 && j < 4
    ensures SetBits(q, i)[j] as int == q[j] as int + Pow2(Share(i, j)) - 1
  {
    hide Pow2, WithBit;
    if i == 0 {
      assert Pow2(0) == 1 by { Pows(); }
    } else {
      BytesAfter(q, n, i - 1, j);
      if j == ByteOf(i - 1) {
        OneMoreBit(q[j] as int, Share(n, j), (i - 1) % 8, SetBits(q, i - 1)[j]);
      }
    }
  }

  lemma OneMoreBit(orig: nat, share: nat, k: nat, b: Byte)
    requires k < share <= 8 && orig % Pow2(share) == 0 && b as int == orig + Pow2(k) - 1
    ensures WithBit(b, k) as int == orig + Pow2(k + 1) - 1
  {
    var c, d, q := Pow2(share - k - 1), Pow2(k + 1), orig / Pow2(share);
    assert d == 2 * Pow2(k);
    hide Pow2, Or;
    PowAdd(share - k - 1, k + 1);
    Floor(orig, c * d);
    Regroup(c, d, q);
    DivModIs(b as int, d, c * q, Pow2(k) - 1);
    OrClearBit(b as int, k);
  }

  /** The bits of the four bytes together. */
  lemma {:induction false} SharesAdd(n: nat)
    requires n <= 32
    ensures (Pow2(Share(n, 0)) - 1) * 0x100_0000 + (Pow2(Share(n, 1)) - 1) * 0x1_0000
            + (Pow2(Share(n, 2)) - 1) * 0x100 + (Pow2(Share(n, 3)) - 1) == Pow2(n) - 1
  {
    hide Pow2;
    Pows();
    BytePows();
    if n <= 8 {
    } else if n <= 16 {
      PowAdd(8, n - 8);
    } else if n <= 24 {
      PowAdd(16, n - 16);
    } else {
      PowAdd(24, n - 24);
    }
  }

  lemma BytePows()
    ensures Pow2(8) == 0x100 && Pow2(16) == 0x1_0000 && Pow2(24) == 0x100_0000 && Pow2(32) == 0x1_0000_0000
  {
  }

  /** Setting the host bits of a masked prefix one by one gives its last address. */
  lemma BroadcastIsLast(p: Prefix)
    requires p.Valid()
    ensures Number(Broadcast(Masked(p))) == Number(Masked(p).addr) + Pow2(p.HostBits()) - 1
  {
    hide Pow2, Share, SetBits, Masked;
    var q, n := Masked(p).addr, p.HostBits();
    MaskedClear(p);
    BytesAfter(q, n, n, 0);
    BytesAfter(q, n, n, 1);
    BytesAfter(q, n, n, 2);
    BytesAfter(q, n, n, 3);
    SharesAdd(n);
  }

  /** And masking gives its first: the multiple of the prefix's size at or below the address. */
  lemma MaskedIsFirst(p: Prefix)
    requires p.Valid()
    ensures var d := Pow2(p.HostBits());
      Number(Masked(p).addr) % d == 0 && Number(Masked(p).addr) <= Number(p.addr) < Number(Masked(p).addr) + d
  {
    hide Pow2, Masked, Share;
    LowPart(p.addr, p.HostBits());
    Aligned(p);
  }

  lemma MaskedByte(p: Prefix, j: nat) returns (b: nat)
    requires p.Valid() && j < 4
    ensures Masked(p).addr[j] as int == Pow2(Share(p.HostBits(), j)) * b
    ensures Share(p.HostBits(), j) == 8 ==> Masked(p).addr[j] == 0
  {
    hide Share;
    Pows();
    hide Pow2;
    b := p.addr[j] as int / Pow2(Share(p.HostBits(), j));
  }

  lemma Aligned(p: Prefix)
    requires p.Valid()
    ensures Number(Masked(p).addr) % Pow2(p.HostBits()) == 0
  {
    hide Pow2, Masked;
    var n := p.HostBits();
    BytePows();
    assert Pow2(0) == 1 by { Pows(); }
    if n <= 8 {
      AlignedAt(p, 3, 1);
    } else if n <= 16 {
      AlignedAt(p, 2, 0x100);
    } else if n <= 24 {
      AlignedAt(p, 1, 0x1_0000);
    } else {
      AlignedAt(p, 0, 0x100_0000);
    }
  }

  /** The byte `j`, worth `c`, is the first with host bits. */
  lemma AlignedAt(p: Prefix, j: nat, c: nat)
    requires p.Valid() && j < 4 && 8 * (3 - j) <= p.HostBits() <= 8 * (4 - j)
    requires c == [0x100_0000, 0x1_0000, 0x100, 1][j] == Pow2(8 * (3 - j))
    ensures Number(Masked(p).addr) % Pow2(p.HostBits()) == 0
  {
    hide Pow2, Masked;
    var q, n := Masked(p).addr, p.HostBits();
    var k := n - 8 * (3 - j);
    var b := SharedByte(p, j);
    LowBytesClear(p, j);
    PowAdd(8 * (3 - j), k);
    var q0, q1, q2 := q[0] as int, q[1] as int, q[2] as int;
    var rest := if j == 3 then q0 * 0x1_0000 + q1 * 0x100 + q2 else if j == 2 then q0 * 0x100 + q1
                else if j == 1 then q0 else 0;
    Divides(c, k, b, rest);
    assert Number(q) == c * q[j] as int + c * 256 * rest;
  }

  lemma SharedByte(p: Prefix, j: nat) returns (b: nat)
    requires p.Valid() && j < 4 && 8 * (3 - j) <= p.HostBits() <= 8 * (4 - j)
    ensures Masked(p).addr[j] as int == Pow2(p.HostBits() - 8 * (3 - j)) * b
  {
    hide Pow2, Masked;
    b := MaskedByte(p, j);
    assert Share(p.HostBits(), j) == p.HostBits() - 8 * (3 - j);
  }

  lemma LowBytesClear(p: Prefix, j: nat)
    requires p.Valid() && j < 4 && 8 * (3 - j) <= p.HostBits()
    ensures forall i | j < i < 4 :: Masked(p).addr[i] == 0
  {
    hide Pow2, Masked;
    forall i | j < i < 4 ensures Masked(p).addr[i] == 0 {
      var b := MaskedByte(p, i);
    }
  }

  /** What masking takes away is less than the prefix's size. */
  lemma LowPart(a: Quad, n: nat)
    requires n <= 32
    ensures Number(a) - Number(Masked(Prefix(a, 32 - n)).addr) < Pow2(n)
    ensures Number(a) >= Number(Masked(Prefix(a, 32 - n)).addr)
  {
    hide Pow2;
    Pows();
    SharesAdd(n);
    var q := Masked(Prefix(a, 32 - n)).addr;
    forall j | 0 <= j < 4 ensures 0 <= a[j] as int - q[j] as int <= Pow2(Share(n, j)) - 1 {
      ModLess(a[j] as int, Pow2(Share(n, j)));
    }
  }

  lemma Divides(c: nat, k: nat, b: nat, rest: nat)
    requires k <= 8 && c > 0
    ensures c * Pow2(k) > 0 && (c * (Pow2(k) * b) + c * 256 * rest) % (c * Pow2(k)) == 0
  {
    hide Pow2;
    PowAdd(k, 8 - k);
    Pows();
    AtLeast(c, Pow2(k));
    Factor(c, Pow2(k), Pow2(8 - k), b, rest);
    MultipleMod(c * Pow2(k), b + Pow2(8 - k) * rest);
  }

  // ---- The hosts ------------------------------------------------------------------------------------------

  /** netip.Addr: an IPv4 address, or what its successor function makes of the zero Addr. */
  datatype Addr = V4(n: nat) | NoAddr(k: nat)

  const MAX_V4: nat := 0xFFFF_FFFF

  function Next(a: Addr): Addr {
    match a
    case V4(n) => if n >= MAX_V4 then NoAddr(0) else V4(n + 1)
    case NoAddr(k) => if k + 1 == Pow2(128) then NoAddr(0) else NoAddr(k + 1)
  }

  /** Addr.Compare < 0: no address comes before every IPv4 address. */
  predicate Before(a: Addr, b: Addr) {
    match (a, b)
    case (V4(m), V4(n)) => m < n
    case (NoAddr(_), V4(_)) => true
    case (V4(_), NoAddr(_)) => false
    case (NoAddr(j), NoAddr(k)) => j < k
  }

  function First(p: Prefix): nat
    requires p.Valid()
  {
    Number(Masked(p).addr)
  }

  /** The prefix of the last address alone, after which there is no next one. */
  predicate Endless(p: Prefix)
    requires p.Valid()
  {
    First(p) == MAX_V4
  }

  lemma EndlessIsLastHost(p: Prefix)
    requires p.Valid()
    ensures Endless(p) <==> p.bits == 32 && Number(p.addr) == MAX_V4
  {
    hide Masked, Pow2;
    MaskedIsFirst(p);
    BroadcastIsLast(p);
    assert Pow2(0) == 1 by { Pows(); }
    if p.bits < 32 {
      assert Pow2(p.HostBits()) == 2 * Pow2(p.HostBits() - 1) by { PowDouble(p.HostBits()); }
    }
  }

  lemma PowDouble(n: nat)
    requires n > 0
    ensures Pow2(n) == 2 * Pow2(n - 1)
  {
  }

  /** The addresses strictly between the first and the last of the prefix, in order. */
  ghost predicate Hosts(p: Prefix, ips: seq<Addr>)
    requires p.Valid()
  {
    && |ips| == (if Pow2(p.HostBits()) >= 2 then Pow2(p.HostBits()) - 2 else 0)
    && forall i | 0 <= i < |ips| :: ips[i] == V4(First(p) + 1 + i)
  }

  method GenerateIPs(subnet: Option<Prefix>) returns (ips: seq<Addr>)
    requires subnet.Some? ==> subnet.value.Valid() && !Endless(subnet.value)
    ensures subnet.None? ==> ips == []
    ensures subnet.Some? ==> Hosts(subnet.value, ips)
  {
    hide Masked, Broadcast, Pow2, Number;
    ips := [];
    if subnet.None? {
      return;
    }
    var masked := Masked(subnet.value);
    var first := V4(Number(masked.addr));
    var broadcast := BroadcastAddr(masked);
    var last := V4(Number(broadcast));
    BroadcastIsLast(subnet.value);
    var ip := Next(first);
    while Before(ip, last)
      invariant ip == V4(first.n + 1 + |ips|)
      invariant |ips| == 0 || ip.n <= last.n
      invariant forall i | 0 <= i < |ips| :: ips[i] == V4(first.n + 1 + i)
      decreases last.n - ip.n
    {
      ips := ips + [ip];
      ip := Next(ip);
    }
  }

  function Nth(a: Addr, k: nat): Addr {
    if k == 0 then a else Next(Nth(a, k - 1))
  }

  /** The loop's condition fails at some point for every prefix but one: with 255.255.255.255/32 it holds
      for ever, and the list grows without end. */
  lemma EndsIff(p: Prefix)
    requires p.Valid()
    ensures (exists k :: !Before(Nth(Next(V4(First(p))), k), V4(Number(Broadcast(Masked(p)))))) <==> !Endless(p)
  {
    hide Masked, Broadcast, Number;
    var start, last := Next(V4(First(p))), V4(Number(Broadcast(Masked(p))));
    BroadcastIsLast(p);
    var d := Pow2(p.HostBits());
    if Endless(p) {
      forall k: nat ensures Before(Nth(start, k), last) {
        StaysNoAddr(start, k);
      }
    } else {
      if d == 1 {
        assert !Before(Nth(start, 0), last);
      } else {
        NthIs(First(p) + 1, d - 2);
        assert !Before(Nth(start, d - 2), last);
      }
    }
  }

  lemma {:induction false} StaysNoAddr(a: Addr, k: nat)
    requires a.NoAddr?
    ensures Nth(a, k).NoAddr?
  {
    if k > 0 {
      StaysNoAddr(a, k - 1);
    }
  }

  lemma {:induction false} NthIs(n: nat, k: nat)
    requires n + k <= MAX_V4
    ensures Nth(V4(n), k) == V4(n + k)
  {
    if k > 0 {
      NthIs(n, k - 1);
    }
  }
}
