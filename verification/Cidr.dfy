/**
 CIDR blocks as intervals of integers.

 The kernel compares IPv4 addresses under a 32-bit mask and IPv6 addresses byte by byte.  Both are shown to
 test membership in `[net, net + 2^host)`, where `host` is the number of host bits.
 */
module Cidr {
  import opened Bits

  predicate IsBytes(bs: seq<nat>) { forall i | 0 <= i < |bs| :: bs[i] < 256 }

  /** An IPv6 address in network order. */
  predicate IsAddr6(bs: seq<nat>) { |bs| == 16 && IsBytes(bs) }

  /** A sequence of bytes, most significant first, as one number. */
  function Value(bs: seq<nat>): nat {
    if bs == [] then 0 else Value(bs[..|bs| - 1]) * 256 + bs[|bs| - 1]
  }

  predicate InBlock(x: nat, net: nat, host: nat) {
    net <= x < net + Pow2(host)
  }

  // ---------------------------------------------------------------- blocks

  /** Dropping the host bits of `x` and of an aligned network gives the same number exactly on the block. */
  lemma ShiftIsBlock(x: nat, net: nat, host: nat)
    requires Low(net, host) == 0
    ensures Shr(x, host) == Shr(net, host) <==> InBlock(x, net, host)
  {
    HighAndLow(x, host);
    HighAndLow(net, host);
    var a, c, m := Shr(x, host), Shr(net, host), Pow2(host);
    if InBlock(x, net, host) { PairEq(a, Low(x, host), c, x - net, m); }
  }

  /** Accepted blocks of one family form a tree: two of them nest or share no address. */
  lemma BlocksNestOrDisjoint(a: nat, j: nat, b: nat, k: nat)
    requires Low(a, j) == 0 && Low(b, k) == 0
    ensures
      || (forall x: nat :: InBlock(x, a, j) ==> InBlock(x, b, k))
      || (forall x: nat :: InBlock(x, b, k) ==> InBlock(x, a, j))
      || (forall x: nat :: !(InBlock(x, a, j) && InBlock(x, b, k)))
  {
    if j <= k { SmallInLarge(a, j, b, k); } else { SmallInLarge(b, k, a, j); }
  }

  lemma SmallInLarge(a: nat, j: nat, b: nat, k: nat)
    requires Low(a, j) == 0 && Low(b, k) == 0 && j <= k
    ensures
      || (forall x: nat :: InBlock(x, a, j) ==> InBlock(x, b, k))
      || (forall x: nat :: !(InBlock(x, a, j) && InBlock(x, b, k)))
  {
    forall x: nat, y: nat | InBlock(x, a, j) && InBlock(y, a, j)
      ensures InBlock(x, b, k) <==> InBlock(y, b, k)
    {
      ShiftIsBlock(x, a, j);
      ShiftIsBlock(y, a, j);
      ShrShr(x, j, k - j);
      ShrShr(y, j, k - j);
      ShiftIsBlock(x, b, k);
      ShiftIsBlock(y, b, k);
    }
  }

  // ---------------------------------------------------------------- IPv4: one mask

  /** The netmask of a prefix length: all ones above the host bits. */
  function Mask4(prefix: nat): (m: nat)
    requires prefix <= 32
    ensures m < 0x1_0000_0000
  {
    Pow2Facts();
    Pow2Mono(32 - prefix, 32);
    Pow2(32) - Pow2(32 - prefix)
  }

  lemma AndMask4(x: nat, prefix: nat)
    requires x < 0x1_0000_0000 && prefix <= 32
    ensures And(x, Mask4(prefix)) == x - Low(x, 32 - prefix)
  {
    Pow2Facts();
    AndHigh(x, 32, 32 - prefix);
  }

  /** `addr & ~mask`: the host bits. */
  lemma AndHost4(x: nat, prefix: nat)
    requires prefix <= 32
    ensures And(x, 0xFFFF_FFFF - Mask4(prefix)) == Low(x, 32 - prefix)
  {
    Pow2Facts();
    AndLow(x, 32 - prefix);
  }

  /** The kernel's 32-bit mask comparison is membership in the block. */
  lemma MaskIsBlock(x: nat, net: nat, prefix: nat)
    requires x < 0x1_0000_0000 && net < 0x1_0000_0000 && prefix <= 32
    requires Low(net, 32 - prefix) == 0
    ensures And(x, Mask4(prefix)) == And(net, Mask4(prefix)) <==> InBlock(x, net, 32 - prefix)
  {
    AndMask4(x, prefix);
    AndMask4(net, prefix);
    SameHigh(x, net, 32 - prefix);
    ShiftIsBlock(x, net, 32 - prefix);
  }

  // ---------------------------------------------------------------- bytes

  lemma {:induction false} ValueInjective(a: seq<nat>, b: seq<nat>)
    requires IsBytes(a) && IsBytes(b) && |a| == |b|
    ensures Value(a) == Value(b) <==> a == b
  {
    if a != [] {
      var n := |a| - 1;
      ValueInjective(a[..n], b[..n]);
      assert a == a[..n] + [a[n]] && b == b[..n] + [b[n]];
    }
  }

  lemma {:induction false} ValueZero(bs: seq<nat>)
    requires IsBytes(bs)
    ensures Value(bs) == 0 <==> forall i | 0 <= i < |bs| :: bs[i] == 0
  {
    if bs != [] {
      var n := |bs| - 1;
      ValueZero(bs[..n]);
      if Value(bs) == 0 {
        forall i | 0 <= i < |bs| ensures bs[i] == 0 { if i < n { assert bs[i] == bs[..n][i]; } }
      }
    }
  }

  lemma {:induction false} ValueBound(bs: seq<nat>)
    requires IsBytes(bs)
    ensures Value(bs) < Pow2(8 * |bs|)
  {
    if bs != [] {
      var n := |bs| - 1;
      ValueBound(bs[..n]);
      Pow2Facts();
      Pow2Add(8, 8 * n);
      assert 8 * |bs| == 8 + 8 * n;
    }
  }

  lemma AppendByte(v: nat, b: nat, j: nat)
    requires b < 256 && j <= 8
    ensures Shr(v * 256 + b, j) == v * Pow2(8 - j) + Shr(b, j)
    ensures Low(v * 256 + b, j) == Low(b, j)
    ensures Shr(b, j) < Pow2(8 - j)
  {
    hide Pow2, Shr, Low;
    Pow2Facts();
    ShrAppend(v, b, 8, j);
  }

  lemma DropByte(v: nat, b: nat)
    requires b < 256
    ensures Shr(v * 256 + b, 8) == v && Low(v * 256 + b, 8) == b
  {
    AppendByte(v, b, 8);
    Pow2Facts();
    ShrSmall(b, 8);
  }

  /** Shifting by whole bytes drops whole bytes. */
  lemma {:induction false} ShrBytes(bs: seq<nat>, k: nat)
    requires IsBytes(bs) && k <= |bs|
    ensures Shr(Value(bs), 8 * (|bs| - k)) == Value(bs[..k])
    ensures Low(Value(bs), 8 * (|bs| - k)) == 0 <==> forall i | k <= i < |bs| :: bs[i] == 0
  {
    if k == |bs| {
      assert bs[..k] == bs;
    } else {
      var n := |bs| - 1;
      var t, rest := bs[..n], 8 * (n - k);
      ShrBytes(t, k);
      assert t[..k] == bs[..k];
      ByteBelow(Value(t), bs[n], rest);
      assert 8 * (|bs| - k) == 8 + rest;
      forall i | k <= i < n ensures t[i] == bs[i] {}
    }
  }

  lemma ByteBelow(v: nat, b: nat, rest: nat)
    requires b < 256
    ensures Shr(v * 256 + b, 8 + rest) == Shr(v, rest)
    ensures Low(v * 256 + b, 8 + rest) == 0 <==> b == 0 && Low(v, rest) == 0
  {
    DropByte(v, b);
    ShrShr(v * 256 + b, 8, rest);
    LowLow(v * 256 + b, 8, rest);
  }

  /** Shifting by whole bytes and the low `8 - r` bits of byte `k`. */
  lemma ShrPartial(bs: seq<nat>, k: nat, r: nat, host: nat)
    requires IsBytes(bs) && k < |bs| && 1 <= r <= 8 && host == 8 * (|bs| - k) - r
    ensures Shr(Value(bs), host) == Value(bs[..k]) * Pow2(r) + Shr(bs[k], 8 - r)
    ensures Shr(bs[k], 8 - r) < Pow2(r)
    ensures Low(Value(bs), host) == 0
       <==> Low(bs[k], 8 - r) == 0 && forall i | k < i < |bs| :: bs[i] == 0
  {
    var bytes := 8 * (|bs| - (k + 1));
    assert host == bytes + (8 - r);
    ShrBytes(bs, k + 1);
    assert bs[..k + 1][..k] == bs[..k];
    var v := Value(bs[..k]);
    assert Value(bs[..k + 1]) == v * 256 + bs[k];
    ShrThenByte(Value(bs), bytes, v, bs[k], r);
  }

  lemma ShrThenByte(x: nat, bytes: nat, v: nat, b: nat, r: nat)
    requires Shr(x, bytes) == v * 256 + b && b < 256 && r <= 8
    ensures Shr(x, bytes + (8 - r)) == v * Pow2(r) + Shr(b, 8 - r)
    ensures Shr(b, 8 - r) < Pow2(r)
    ensures Low(x, bytes + (8 - r)) == 0 <==> Low(x, bytes) == 0 && Low(b, 8 - r) == 0
  {
    ShrShr(x, bytes, 8 - r);
    LowLow(x, bytes, 8 - r);
    AppendByte(v, b, 8 - r);
  }

  // ---------------------------------------------------------------- IPv6 matching

  lemma AndByteMask(a: nat, r: nat)
    requires a < 256 && r <= 8
    ensures And(a, ByteMask(r)) == a - Low(a, 8 - r)
  {
    Pow2Facts();
    AndHigh(a, 8, 8 - r);
  }

  lemma AndHostMask(a: nat, r: nat)
    requires r <= 8
    ensures And(a, 255 - ByteMask(r)) == Low(a, 8 - r)
  {
    AndLow(a, 8 - r);
  }

  lemma TopBits(a: nat, b: nat, r: nat)
    requires a < 256 && b < 256 && r <= 8
    ensures And(a, ByteMask(r)) == And(b, ByteMask(r)) <==> Shr(a, 8 - r) == Shr(b, 8 - r)
  {
    AndByteMask(a, r);
    AndByteMask(b, r);
    SameHigh(a, b, 8 - r);
  }

  /** The network part of two addresses agrees exactly when the whole bytes and the masked partial byte agree. */
  lemma NetworkBytes(x: seq<nat>, y: seq<nat>, k: nat, r: nat, host: nat)
    requires IsAddr6(x) && IsAddr6(y) && k < 16 && 1 <= r < 8 && host == 8 * (16 - k) - r
    ensures Shr(Value(x), host) == Shr(Value(y), host)
       <==> x[..k] == y[..k] && And(x[k], ByteMask(r)) == And(y[k], ByteMask(r))
  {
    ShrPartial(x, k, r, host);
    ShrPartial(y, k, r, host);
    PairEq(Value(x[..k]), Shr(x[k], 8 - r), Value(y[..k]), Shr(y[k], 8 - r), Pow2(r));
    ValueInjective(x[..k], y[..k]);
    TopBits(x[k], y[k], r);
  }

  /** `tsf_match_v6_prefix`: whole bytes first, then the partial byte under its mask. */
  method MatchV6Prefix(addr: seq<nat>, net: seq<nat>, prefix: nat) returns (matched: bool)
    requires IsAddr6(addr) && IsAddr6(net) && prefix <= 128
    ensures matched <==> Shr(Value(addr), 128 - prefix) == Shr(Value(net), 128 - prefix)
  {
    var fullBytes, remainderBits := prefix / 8, prefix % 8;
    if remainderBits == 0 {
      assert 128 - prefix == 8 * (16 - fullBytes);
      ShrBytes(addr, fullBytes);
      ShrBytes(net, fullBytes);
      ValueInjective(addr[..fullBytes], net[..fullBytes]);
    } else {
      NetworkBytes(addr, net, fullBytes, remainderBits, 128 - prefix);
    }
    if prefix == 0 { return true; }
    if fullBytes > 0 && addr[..fullBytes] != net[..fullBytes] { return false; }
    if remainderBits > 0 {
      var mask := ByteMask(remainderBits);
      if And(addr[fullBytes], mask) != And(net[fullBytes], mask) { return false; }
    }
    matched := true;
  }

  // ---------------------------------------------------------------- IPv6 acceptance

  /** `tsf_validate_v6_cidr`: prefixes 0 and 128 are not checked; otherwise the host bits must be zero. */
  method ValidateV6Cidr(addr: seq<nat>, prefix: nat) returns (ok: bool)
    requires IsAddr6(addr) && prefix <= 128
    ensures ok <==> prefix == 0 || Low(Value(addr), 128 - prefix) == 0
  {
    if prefix == 128 || prefix == 0 { return true; }
    var fullBytes, remainderBits := prefix / 8, prefix % 8;
    if remainderBits > 0 {
      ShrPartial(addr, fullBytes, remainderBits, 128 - prefix);
      AndHostMask(addr[fullBytes], remainderBits);
      if And(addr[fullBytes], 255 - ByteMask(remainderBits)) != 0 { return false; }
      fullBytes := fullBytes + 1;
    } else {
      ShrBytes(addr, fullBytes);
    }
    var i := fullBytes;
    while i < 16
      invariant fullBytes <= i <= 16
      invariant forall j | fullBytes <= j < i :: addr[j] == 0
    {
      if addr[i] != 0 { return false; }
      i := i + 1;
    }
    ok := true;
  }

  /** Prefix 0 matches everything. */
  lemma PrefixZeroMatchesAll(x: seq<nat>, net: seq<nat>, host: nat)
    requires IsAddr6(x) && IsAddr6(net) && host == 128
    ensures Shr(Value(x), host) == Shr(Value(net), host)
  {
    ShrBytes(x, 0);
    ShrBytes(net, 0);
    assert x[..0] == net[..0];
    assert host == 8 * (|x| - 0);
  }
}
