// The check on a peer's tunnel address: byte-wise mask arithmetic on IPv4 addresses, and what
// it means for the addresses as 32-bit numbers.
module Subnet {
  import opened Common
  import opened Bits

  /** The four bytes of an IPv4 address or mask. */
  type Quad = q: seq<Byte> | |q| == 4 witness [0, 0, 0, 0]

  /** A parsed IP address; an IPv4-mapped one counts as IPv4, any other IPv6 one is its text. */
  datatype Addr = V4(q: Quad) | V6(text: string)

  /** The server's address and mask as parsed; None is text that does not parse. */
  datatype Server = Server(address: Option<Addr>, mask: Option<Quad>)

  datatype Verdict = Accept | NotCidr | NotInSubnet | OwnAddress | NetworkAddress | BroadcastAddress

  function AndByte(x: Byte, y: Byte): Byte {
    AndBound(x, y);
    And(x, y)
  }

  function Masked(ip: seq<Byte>, mask: seq<Byte>): (r: seq<Byte>)
    requires |ip| == |mask|
    ensures |r| == |ip| && forall i :: 0 <= i < |ip| ==> r[i] == AndByte(ip[i], mask[i])
  {
    seq(|ip|, i requires 0 <= i < |ip| => AndByte(ip[i], mask[i]))
  }

  lemma Pow2Byte()
    ensures Pow2(8) == 256
  {
    assert Pow2(4) == 16;
  }

  function OrByte(x: Byte, y: Byte): Byte {
    Pow2Byte();
    OrBound(x, y, 8);
    Or(x, y)
  }

  function BroadcastOf(net: seq<Byte>, mask: seq<Byte>): (r: seq<Byte>)
    requires |net| == |mask|
    ensures |r| == |net| && forall i :: 0 <= i < |net| ==> r[i] == OrByte(net[i], 255 - mask[i])
  {
    seq(|net|, i requires 0 <= i < |net| => OrByte(net[i], 255 - mask[i]))
  }

  // ---- Contiguous masks ----

  /** The byte with its k highest bits set. */
  function MaskByte(k: nat): Byte
    requires k <= 8
  {
    Pow2Byte();
    Pow2Mono(8 - k, 8);
    256 - Pow2(8 - k)
  }

  /** The n-byte mask with its p highest bits set. */
  function MaskOf(p: nat, n: nat): (m: seq<Byte>)
    requires p <= 8 * n
    ensures |m| == n
  {
    if n == 0 then []
    else if p <= 8 * (n - 1) then MaskOf(p, n - 1) + [0]
    else MaskOf(8 * (n - 1), n - 1) + [MaskByte(p - 8 * (n - 1))]
  }

  /** net.IPMask.Size: the prefix length of a contiguous mask; None answers for the 0,0 of any other. */
  function PrefixLength(mask: Quad, p: nat := 0): (r: Option<nat>)
    requires p <= 33
    ensures r.Some? ==> p <= r.value <= 32 && mask == MaskOf(r.value, 4)
    ensures r.None? ==> forall k :: p <= k <= 32 ==> mask != MaskOf(k, 4)
    decreases 33 - p
  {
    if p == 33 then None
    else if mask == MaskOf(p, 4) then Some(p)
    else PrefixLength(mask, p + 1)
  }

  // ---- The check ----

  /** The check as one expression, byte-wise. */
  function Check(server: Server, tunnel: Option<Addr>): Verdict {
    if tunnel.None? then NotCidr
    else if server.address.None? || server.mask.None? then Accept
    else if server.address.value.V6? || tunnel.value.V6? then NotInSubnet
    else
      var own, mask, ip := server.address.value.q, server.mask.value, tunnel.value.q;
      var net := Masked(own, mask);
      if Masked(ip, mask) != Masked(net, mask) then NotInSubnet
      else if ip == own then OwnAddress
      else
        var ones := PrefixLength(mask);
        if ones.Some? && ones.value < 31 && ip == net then NetworkAddress
        else if ones.Some? && ones.value < 31 && ip == BroadcastOf(net, mask) then BroadcastAddress
        else Accept
  }

  method Broadcast(net: Quad, mask: Quad) returns (broadcast: array<Byte>)
    ensures fresh(broadcast) && broadcast[..] == BroadcastOf(net, mask)
  {
    broadcast := new Byte[4];
    for i := 0 to 4
      invariant forall k :: 0 <= k < i ==> broadcast[k] == OrByte(net[k], 255 - mask[k])
    {
      broadcast[i] := OrByte(net[i], 255 - mask[i]);
    }
  }

  method ValidateTunnelIP(server: Server, tunnel: Option<Addr>) returns (v: Verdict)
    ensures v == Check(server, tunnel)
  {
    if tunnel.None? {
      return NotCidr;
    }
    if server.address.None? || server.mask.None? {
      return Accept;
    }
    if server.address.value.V6? || tunnel.value.V6? {
      return NotInSubnet;
    }
    var own, mask, ip := server.address.value.q, server.mask.value, tunnel.value.q;
    var net := Masked(own, mask);
    if Masked(ip, mask) != Masked(net, mask) {
      return NotInSubnet;
    }
    if ip == own {
      return OwnAddress;
    }
    var ones := PrefixLength(mask);
    if ones.Some? && ones.value < 31 {
      if ip == net {
        return NetworkAddress;
      }
      var broadcast := Broadcast(net, mask);
      if ip == broadcast[..] {
        return BroadcastAddress;
      }
    }
    v := Accept;
  }

  // ---- Addresses as numbers ----

  /** The address as a number, highest byte first. */
  function Value(b: seq<Byte>): nat {
    if b == [] then 0 else 256 * Value(b[..|b| - 1]) + b[|b| - 1]
  }

  lemma {:induction false} ValueInjective(a: seq<Byte>, b: seq<Byte>)
    requires |a| == |b| && Value(a) == Value(b)
    ensures a == b
  {
    if a == [] {
    } else {
      ValueInjective(a[..|a| - 1], b[..|b| - 1]);
      assert a == a[..|a| - 1] + [a[|a| - 1]];
      assert b == b[..|b| - 1] + [b[|b| - 1]];
    }
  }

  lemma Pow2Plus8(k: nat)
    ensures Pow2(k + 8) == 256 * Pow2(k)
  {
    Pow2Split(8, k + 8);
    Pow2Byte();
  }

  lemma Shifted(h: nat, last: nat, d: nat, c: nat)
    requires d > 0 && d * c == 256
    ensures (256 * h + last) % d == last % d
  {
    var q := last / d;
    assert last == d * q + last % d;
    assert 256 * h == d * (c * h) by {
      assert (d * c) * h == d * (c * h);
    }
    assert d * (c * h + q) == d * (c * h) + d * q;
    DivisionUnique(256 * h + last, d, c * h + q, last % d);
  }

  /** Below a byte boundary the remainder is that of the last byte. */
  lemma LowDigit(h: nat, last: nat, j: nat, d: nat)
    requires j <= 8 && d == Pow2(j)
    ensures (256 * h + last) % d == last % d
  {
    Pow2Split(j, 8);
    Pow2Byte();
    Shifted(h, last, d, Pow2(8 - j));
  }

  // One more byte, masked: e is the block size of the bytes above, d of the byte itself.

  lemma CutAbove(h: nat, last: Byte, e: nat)
    requires e > 0
    ensures Floor(256 * h + last, 256 * e) == 256 * Floor(h, e)
  {
    var v := 256 * h + last;
    assert v / 256 == h && v % 256 == last;
    ModSplit(v, 256, e);
    FloorIs(v, 256 * e);
    FloorIs(h, e);
  }

  lemma CutWithin(h: nat, last: Byte, j: nat, d: nat)
    requires j <= 8 && d == Pow2(j)
    ensures d <= 256
    ensures 256 * h + AndByte(last, 256 - d) == Floor(256 * h + last, d)
  {
    Pow2Byte();
    AndMask(last, j, 8, d, 256);
    LowDigit(h, last, j, d);
    FloorIs(256 * h + last, d);
  }

  lemma FillWithin(h: nat, last: Byte, j: nat, d: nat)
    requires j <= 8 && d == Pow2(j) && d <= 256
    ensures 256 * h + OrByte(last, d - 1) == Floor(256 * h + last, d) + d - 1
  {
    OrMask(last, j, d);
    LowDigit(h, last, j, d);
    FloorIs(256 * h + last, d);
  }

  lemma FullByte(x: Byte)
    ensures MaskByte(8) == 255
    ensures AndByte(x, 255) == x && OrByte(x, 0) == x
    ensures AndByte(x, 0) == 0 && OrByte(x, 255) == 255
  {
    Pow2Byte();
    AndOnes(x, 8);
    OrMask(x, 8, 256);
    SmallRemainder(x, 256);
  }

  lemma {:induction false} FullMask(n: nat)
    ensures forall i :: 0 <= i < n ==> MaskOf(8 * n, n)[i] == 255
  {
    if n == 0 {
    } else {
      FullMask(n - 1);
      FullByte(0);
    }
  }

  lemma FullMaskKeeps(b: seq<Byte>)
    ensures Masked(b, MaskOf(8 * |b|, |b|)) == b
    ensures BroadcastOf(b, MaskOf(8 * |b|, |b|)) == b
  {
    FullMask(|b|);
    forall i | 0 <= i < |b| ensures AndByte(b[i], 255) == b[i] && OrByte(b[i], 0) == b[i] {
      FullByte(b[i]);
    }
  }

  /** First and last address of the aligned block of size d around v. */
  predicate Block(v: nat, d: nat, first: nat, final: nat) {
    d > 0 && first == Floor(v, d) && final == first + d - 1
  }

  /** One more byte below a mask that already ends above it. */
  lemma BlockAbove(h: nat, last: Byte, e: nat, first: nat, final: nat)
    requires Block(h, e, first, final)
    ensures Block(256 * h + last, 256 * e, 256 * first + AndByte(last, 0), 256 * final + OrByte(last, 255))
  {
    CutAbove(h, last, e);
    FullByte(last);
  }

  /** One more byte, inside which the mask ends. */
  lemma BlockWithin(h: nat, last: Byte, k: nat, d: nat)
    requires 0 < k <= 8 && d == Pow2(8 - k)
    ensures Block(256 * h + last, d, 256 * h + AndByte(last, MaskByte(k)), 256 * h + OrByte(last, 255 - MaskByte(k)))
  {
    CutWithin(h, last, 8 - k, d);
    FillWithin(h, last, 8 - k, d);
  }

  /** Masking b reaches the first address of its block of size d, filling the other bits the last. */
  predicate Spans(b: seq<Byte>, m: seq<Byte>, d: nat)
    requires |b| == |m|
  {
    Block(Value(b), d, Value(Masked(b, m)), Value(BroadcastOf(b, m)))
  }

  lemma MaskedValue(b: seq<Byte>, m: seq<Byte>, n: nat)
    requires |b| == |m| == n + 1
    ensures Value(Masked(b, m)) == 256 * Value(Masked(b[..n], m[..n])) + AndByte(b[n], m[n])
    ensures Value(BroadcastOf(b, m)) == 256 * Value(BroadcastOf(b[..n], m[..n])) + OrByte(b[n], 255 - m[n])
  {
    assert Masked(b, m)[..n] == Masked(b[..n], m[..n]);
    assert BroadcastOf(b, m)[..n] == BroadcastOf(b[..n], m[..n]);
  }

  lemma SpansStep(b: seq<Byte>, m: seq<Byte>, n: nat, d: nat, v: nat, first: nat, final: nat)
    requires |b| == |m| == n + 1 && Block(v, d, first, final)
    requires v == Value(b)
    requires first == 256 * Value(Masked(b[..n], m[..n])) + AndByte(b[n], m[n])
    requires final == 256 * Value(BroadcastOf(b[..n], m[..n])) + OrByte(b[n], 255 - m[n])
    ensures Spans(b, m, d)
  {
    MaskedValue(b, m, n);
  }

  lemma SpansAbove(b: seq<Byte>, m: seq<Byte>, n: nat, e: nat, d: nat)
    requires |b| == |m| == n + 1 && m[n] == 0 && d == 256 * e
    requires Spans(b[..n], m[..n], e)
    ensures Spans(b, m, d)
  {
    var h, last := Value(b[..n]), b[n];
    var c, f := Value(Masked(b[..n], m[..n])), Value(BroadcastOf(b[..n], m[..n]));
    BlockAbove(h, last, e, c, f);
    SpansStep(b, m, n, d, 256 * h + last, 256 * c + AndByte(last, 0), 256 * f + OrByte(last, 255));
  }

  lemma SpansWithin(b: seq<Byte>, m: seq<Byte>, n: nat, k: nat, d: nat)
    requires |b| == |m| == n + 1 && 0 < k <= 8 && m[n] == MaskByte(k) && d == Pow2(8 - k)
    requires Masked(b[..n], m[..n]) == b[..n] && BroadcastOf(b[..n], m[..n]) == b[..n]
    ensures Spans(b, m, d)
  {
    var h, last, x := 256 * Value(b[..n]), b[n], m[n];
    BlockWithin(Value(b[..n]), last, k, d);
    SpansStep(b, m, n, d, h + last, h + AndByte(last, x), h + OrByte(last, 255 - x));
  }

  lemma {:induction false} MaskBlock(b: seq<Byte>, m: seq<Byte>, p: nat, d: nat)
    requires p <= 8 * |b| && m == MaskOf(p, |b|) && d == Pow2(8 * |b| - p)
    ensures Spans(b, m, d)
  {
    if b == [] {
    } else {
      var n := |b| - 1;
      if p <= 8 * n {
        var k := 8 * n - p;
        Pow2Plus8(k);
        assert m[..n] == MaskOf(p, n);
        MaskBlock(b[..n], m[..n], p, Pow2(k));
        SpansAbove(b, m, n, Pow2(k), d);
      } else {
        assert m[..n] == MaskOf(8 * n, n);
        FullMaskKeeps(b[..n]);
        SpansWithin(b, m, n, p - 8 * n, d);
      }
    }
  }

  lemma {:induction false} Pow2Strict(a: nat, b: nat)
    requires a < b
    ensures Pow2(a) < Pow2(b)
  {
    Pow2Mono(a + 1, b);
  }

  lemma {:induction false} MasksDiffer(p: nat, r: nat, n: nat)
    requires p < r <= 8 * n
    ensures MaskOf(p, n) != MaskOf(r, n)
  {
    var a, b := MaskOf(p, n), MaskOf(r, n);
    if r <= 8 * (n - 1) {
      MasksDiffer(p, r, n - 1);
      assert a[..n - 1] == MaskOf(p, n - 1) && b[..n - 1] == MaskOf(r, n - 1);
    } else if p <= 8 * (n - 1) {
      Pow2Byte();
      Pow2Strict(8 * n - r, 8);
      assert a[n - 1] == 0 && b[n - 1] > 0;
    } else {
      Pow2Strict(8 * n - r, 8 * n - p);
      assert a[n - 1] < b[n - 1];
    }
  }

  lemma PrefixLengthOfMask(p: nat)
    requires p <= 32
    ensures PrefixLength(MaskOf(p, 4)) == Some(p)
  {
    var r := PrefixLength(MaskOf(p, 4));
    if r.Some? && r.value < p {
      MasksDiffer(r.value, p, 4);
    } else if r.Some? && p < r.value {
      MasksDiffer(p, r.value, 4);
    }
  }

  /** First address of the server's block. */
  function NetworkValue(own: Quad, p: nat): int
    requires p <= 32
  {
    Value(own) - Value(own) % Pow2(32 - p)
  }

  /** Sharing a block is lying in the same aligned range. */
  lemma SameBlock(a: nat, b: nat, d: nat)
    requires d > 0
    ensures a - a % d == b - b % d <==> b - b % d <= a < b - b % d + d
  {
    if b - b % d <= a < b - b % d + d {
      assert b == d * (b / d) + b % d;
      DivisionUnique(a, d, b / d, a - (b - b % d));
    }
  }

  lemma EqualValues(a: seq<Byte>, b: seq<Byte>)
    requires |a| == |b|
    ensures Value(a) == Value(b) <==> a == b
  {
    if Value(a) == Value(b) {
      ValueInjective(a, b);
    }
  }

  /** The bytes that Contains compares agree exactly inside the server's block. */
  lemma InBlock(own: Quad, p: nat, ip: Quad, size: nat)
    requires p <= 32 && size == Pow2(32 - p)
    ensures var mask: Quad := MaskOf(p, 4);
            && Value(Masked(own, mask)) == NetworkValue(own, p)
            && Value(BroadcastOf(Masked(own, mask), mask)) == NetworkValue(own, p) + size - 1
            && (Masked(ip, mask) == Masked(Masked(own, mask), mask) <==>
                  NetworkValue(own, p) <= Value(ip) < NetworkValue(own, p) + size)
  {
    var mask: Quad := MaskOf(p, 4);
    var net: Quad := Masked(own, mask);
    MaskBlock(own, mask, p, size);
    MaskBlock(ip, mask, p, size);
    MaskBlock(net, mask, p, size);
    FloorIs(Value(own), size);
    FloorIs(Value(ip), size);
    FloorIs(Value(net), size);
    SameBlock(Value(net), Value(own), size);
    SameBlock(Value(ip), Value(own), size);
    EqualValues(Masked(ip, mask), Masked(net, mask));
  }

  /** Every verdict in numbers, for a contiguous mask; the reasons are tried in this order. */
  lemma VerdictExactly(own: Quad, p: nat, ip: Quad)
    requires p <= 32
    ensures var net, size, v := NetworkValue(own, p), Pow2(32 - p), Value(ip);
            Check(Server(Some(V4(own)), Some(MaskOf(p, 4))), Some(V4(ip))) ==
              if v < net || net + size <= v then NotInSubnet
              else if v == Value(own) then OwnAddress
              else if p <= 30 && v == net then NetworkAddress
              else if p <= 30 && v == net + size - 1 then BroadcastAddress
              else Accept
  {
    var mask: Quad := MaskOf(p, 4);
    var net: Quad := Masked(own, mask);
    InBlock(own, p, ip, Pow2(32 - p));
    PrefixLengthOfMask(p);
    EqualValues(ip, own);
    EqualValues(ip, net);
    EqualValues(ip, BroadcastOf(net, mask));
  }

  /** Without an address and a mask of the server anything that parses passes; IPv6 never lies in the subnet. */
  lemma VerdictOtherwise(server: Server, tunnel: Option<Addr>)
    ensures tunnel.None? <==> Check(server, tunnel).NotCidr?
    ensures tunnel.Some? && (server.address.None? || server.mask.None?) ==> Check(server, tunnel) == Accept
    ensures tunnel.Some? && server.address.Some? && server.mask.Some?
            && (tunnel.value.V6? || server.address.value.V6?) ==>
              Check(server, tunnel) == NotInSubnet
  {
  }

  /**
   * For a contiguous mask the byte-wise check accepts an address exactly when, as a number, it
   * lies strictly between network and broadcast and is not the server's own; a /31 or /32 mask
   * has no addresses to set aside, so there the whole block but the server is accepted.
   */
  lemma CheckMeaning(own: Quad, p: nat, ip: Quad)
    requires p <= 32
    ensures var net, size, v := NetworkValue(own, p), Pow2(32 - p), Value(ip);
            Check(Server(Some(V4(own)), Some(MaskOf(p, 4))), Some(V4(ip))) == Accept <==>
              && v != Value(own)
              && net <= v < net + size
              && (p <= 30 ==> net < v < net + size - 1)
  {
    VerdictExactly(own, p, ip);
  }
}
