/**
 IPv4 text: `tsf_parse_ipv4_addr`, proved to accept exactly the canonical dotted quads with an optional prefix
 length whose host bits are zero.
 */
module Ipv4 {
  import opened Text
  import opened Numbers
  import opened Bits
  import opened Cidr

  datatype Net4 = Net4(addr: nat, prefix: nat)

  predicate IsNet4(n: Net4) {
    n.addr < 0x1_0000_0000 && n.prefix <= 32 && Low(n.addr, 32 - n.prefix) == 0
  }

  predicate IsOctet(s: string) { NumberUpTo(s, 255).Some? }

  /** The numbers of four octet texts. */
  function OctetValues(parts: seq<string>): (os: seq<nat>)
    requires forall k | 0 <= k < |parts| :: IsOctet(parts[k])
    ensures |os| == |parts| && IsBytes(os)
  {
    seq(|parts|, k requires 0 <= k < |parts| && IsOctet(parts[k]) => NumberUpTo(parts[k], 255).value)
  }

  /** The four octets of a dotted-quad text. */
  function Octets(s: string): (r: Option<seq<nat>>)
    ensures r.Some? ==> |r.value| == 4 && IsBytes(r.value)
  {
    var parts := Fields(s, '.');
    if |parts| == 4 && forall k | 0 <= k < 4 :: IsOctet(parts[k]) then Some(OctetValues(parts)) else None
  }

  /** The text before the first slash, and the prefix length after it. */
  function AddrPart(s: string): string { s[..Find(s, {'/'})] }

  function PrefixPart(s: string, max: nat): (r: Option<nat>)
    ensures r.Some? ==> r.value <= max
  {
    var i := Find(s, {'/'});
    if i == |s| then Some(max) else NumberUpTo(s[i + 1..], max)
  }

  /** The network an IPv4 text stands for. */
  function ParseV4(s: string): (r: Option<Net4>)
  {
    var prefix, octets := PrefixPart(s, 32), Octets(AddrPart(s));
    if prefix.None? || octets.None? || Low(Value(octets.value), 32 - prefix.value) != 0 then None
    else Some(Net4(Value(octets.value), prefix.value))
  }

  // ---------------------------------------------------------------- the texts of a network

  /** The bytes of a number, most significant first. */
  function Bytes(a: nat, n: nat): (bs: seq<nat>)
    ensures |bs| == n && IsBytes(bs)
  {
    if n == 0 then [] else Bytes(a / 256, n - 1) + [a % 256]
  }

  lemma {:induction false} ValueOfBytes(a: nat, n: nat)
    requires a < Pow2(8 * n)
    ensures Value(Bytes(a, n)) == a
  {
    if n > 0 {
      Pow2Facts();
      Pow2Add(8, 8 * (n - 1));
      ValueOfBytes(a / 256, n - 1);
      assert Bytes(a, n)[..n - 1] == Bytes(a / 256, n - 1);
    }
  }

  lemma Bytes4(a: nat)
    requires a < 0x1_0000_0000
    ensures Value(Bytes(a, 4)) == a
  {
    Pow2Facts();
    ValueOfBytes(a, 4);
  }

  lemma Value4(os: seq<nat>)
    requires |os| == 4 && IsBytes(os)
    ensures Value(os) < 0x1_0000_0000 && Bytes(Value(os), 4) == os
  {
    Pow2Facts();
    ValueBound(os);
    Bytes4(Value(os));
    ValueInjective(Bytes(Value(os), 4), os);
  }

  function DecimalTexts(os: seq<nat>): (parts: seq<string>)
    ensures |parts| == |os| && forall k | 0 <= k < |os| :: parts[k] == Decimal(os[k])
  {
    seq(|os|, k requires 0 <= k < |os| => Decimal(os[k]))
  }

  /** Dotted-quad text of a 32-bit address. */
  function Dotted(a: nat): string { Join(DecimalTexts(Bytes(a, 4)), '.') }

  /** The two ways to write an address and a prefix length: the longest prefix may be left out. */
  predicate Writes(s: string, addr: string, prefix: nat, max: nat) {
    s == addr + "/" + Decimal(prefix) || (prefix == max && s == addr)
  }

  predicate WritesV4(s: string, n: Net4) { Writes(s, Dotted(n.addr), n.prefix, 32) }

  lemma PartsExact(s: string, addr: string, prefix: nat, max: nat)
    requires '/' !in addr
    ensures AddrPart(s) == addr && PrefixPart(s, max) == Some(prefix) <==> prefix <= max && Writes(s, addr, prefix, max)
  {
    var i := Find(s, {'/'});
    if AddrPart(s) == addr && PrefixPart(s, max) == Some(prefix) {
      if i < |s| {
        NumberExact(s[i + 1..], max, prefix);
        SplitAt(s, i);
      } else {
        WholeSlice(s);
      }
    }
    if prefix <= max && Writes(s, addr, prefix, max) {
      FindAfter(addr, '/', Decimal(prefix));
      NumberExact(Decimal(prefix), max, prefix);
      WholeSlice(addr);
    }
  }

  lemma DecimalHasOnlyDigits(n: nat, c: char)
    requires !IsDigit(c)
    ensures c !in Decimal(n)
  {
    DecimalIsCanonical(n);
  }

  lemma OctetsSound(s: string, os: seq<nat>)
    requires Octets(s) == Some(os)
    ensures s == Join(DecimalTexts(os), '.')
  {
    var parts := Fields(s, '.');
    forall k | 0 <= k < 4 ensures parts[k] == Decimal(os[k]) {
      assert IsOctet(parts[k]);
      NumberExact(parts[k], 255, os[k]);
    }
    assert parts == DecimalTexts(os);
    JoinOfFields(s, '.');
  }

  lemma OctetsComplete(os: seq<nat>)
    requires |os| == 4 && IsBytes(os)
    ensures Octets(Join(DecimalTexts(os), '.')) == Some(os)
  {
    var parts := DecimalTexts(os);
    forall k | 0 <= k < 4 ensures '.' !in parts[k] && NumberUpTo(parts[k], 255) == Some(os[k]) {
      DecimalHasOnlyDigits(os[k], '.');
      NumberExact(parts[k], 255, os[k]);
    }
    FieldsOfJoin(parts, '.');
    assert OctetValues(parts) == os;
  }

  lemma {:induction false} JoinAvoids(parts: seq<string>, sep: char, c: char)
    requires parts != [] && c != sep && forall p | p in parts :: c !in p
    ensures c !in Join(parts, sep)
  {
    if |parts| > 1 { JoinAvoids(parts[1..], sep, c); }
  }

  lemma DottedAvoids(a: nat, c: char)
    requires !IsDigit(c) && c != '.'
    ensures c !in Dotted(a)
  {
    var parts := DecimalTexts(Bytes(a, 4));
    forall p | p in parts ensures c !in p {
      var k :| 0 <= k < 4 && parts[k] == p;
      DecimalHasOnlyDigits(Bytes(a, 4)[k], c);
    }
    JoinAvoids(parts, '.', c);
  }

  /** A text is read as the address exactly when it is its dotted quad. */
  lemma AddrExact(t: string, a: nat)
    ensures Octets(t).Some? && Value(Octets(t).value) == a <==> a < 0x1_0000_0000 && t == Dotted(a)
  {
    if Octets(t).Some? { AddrSound(t); }
    if a < 0x1_0000_0000 {
      OctetsComplete(Bytes(a, 4));
      Bytes4(a);
    }
  }

  lemma AddrSound(t: string)
    requires Octets(t).Some?
    ensures Value(Octets(t).value) < 0x1_0000_0000 && t == Dotted(Value(Octets(t).value))
  {
    var os := Octets(t).value;
    OctetsSound(t, os);
    Value4(os);
  }

  /** The accepted IPv4 texts are exactly the written forms of networks, and each is read as its network. */
  lemma V4Exact(s: string, n: Net4)
    ensures ParseV4(s) == Some(n) <==> IsNet4(n) && WritesV4(s, n)
  {
    DottedAvoids(n.addr, '/');
    PartsExact(s, Dotted(n.addr), n.prefix, 32);
    AddrExact(AddrPart(s), n.addr);
  }

  // ---------------------------------------------------------------- the parser

  /** The inner digit loop: at most four digits from `p`.  On success the digits are an octet and the next
      character is no digit; on failure the first dot-separated field is no octet. */
  method ParseOctet(buf: array<char>, p: nat, ghost t: string) returns (ok: bool, val: nat, ndigits: nat)
    requires IsCStr(buf[..], p, t)
    ensures ok ==> ndigits <= |t| && NumberUpTo(t[..ndigits], 255) == Some(val)
    ensures ok && ndigits < |t| ==> !IsDigit(t[ndigits])
    ensures !ok ==> !IsOctet(t[..Find(t, {'.'})])
  {
    val, ndigits := 0, 0;
    CStrAt(buf[..], p, t, 0);
    while IsDigit(buf[p + ndigits]) && ndigits < 4
      invariant ndigits <= 4 && ndigits <= |t|
      invariant AllDigits(t[..ndigits]) && val == DecVal(t[..ndigits])
      invariant p + ndigits < buf.Length && buf[p + ndigits] == if ndigits < |t| then t[ndigits] else NUL
    {
      assert t[..ndigits + 1][..ndigits] == t[..ndigits];
      val := val * 10 + DigitVal(buf[p + ndigits]);
      ndigits := ndigits + 1;
      CStrAt(buf[..], p, t, ndigits);
    }
    CStrAt(buf[..], p, t, 0);
    if ndigits == 0 { return false, 0, 0; }
    DigitsInField(t, ndigits);
    if ndigits > 1 && buf[p] == '0' { return false, 0, 0; }
    if val > 255 { return false, 0, 0; }
    if ndigits == 4 { LongIsLarge(t[..4]); }
    ok := true;
  }

  /** What leading digits say about the field they begin. */
  lemma DigitsInField(t: string, n: nat)
    requires 0 < n <= |t| && AllDigits(t[..n])
    ensures n > 1 && t[0] == '0' ==> !IsOctet(t[..Find(t, {'.'})])
    ensures DecVal(t[..n]) > 255 ==> !IsOctet(t[..Find(t, {'.'})])
  {
    var i := Find(t, {'.'});
    forall k | 0 <= k < n ensures t[k] != '.' { assert IsDigit(t[..n][k]); }
    assert t[..i][..n] == t[..n];
    DigitsInOctet(t[..i], n);
  }

  lemma DigitsInOctet(field: string, n: nat)
    requires 0 < n <= |field| && AllDigits(field[..n])
    ensures n > 1 && field[0] == '0' ==> !IsOctet(field)
    ensures DecVal(field[..n]) > 255 ==> !IsOctet(field)
  {
    if AllDigits(field) { PrefixIsSmaller(field, n); }
  }

  lemma {:induction false} PrefixIsSmaller(s: string, k: nat)
    requires AllDigits(s) && k <= |s|
    ensures DecVal(s[..k]) <= DecVal(s)
    decreases |s|
  {
    if k == |s| { WholeSlice(s); } else {
      PrefixIsSmaller(s[..|s| - 1], k);
      assert s[..|s| - 1][..k] == s[..k];
    }
  }

  /** A field that goes on with another character is no octet; otherwise the digits are the field. */
  lemma FieldAfterDigits(t: string, n: nat)
    requires n <= |t| && AllDigits(t[..n]) && (n < |t| ==> !IsDigit(t[n]))
    ensures var i := Find(t, {'.'});
      if n == |t| || t[n] == '.' then i == n else !IsOctet(t[..i])
  {
    var i := Find(t, {'.'});
    if n == |t| || t[n] == '.' {
      forall k | 0 <= k < n ensures t[k] !in {'.'} { assert t[k] == t[..n][k]; }
      FindUnique(t, {'.'}, n);
    } else {
      assert n < i;
      assert t[..i][n] == t[n];
    }
  }

  /** Progress of the octet loop: `parts` are read, `u` is left. */
  ghost predicate Progress(t: string, parts: seq<string>, u: string) {
    && Fields(t, '.') == parts + Fields(u, '.')
    && forall k | 0 <= k < |parts| :: IsOctet(parts[k])
  }

  /** The next field is no octet, or the fields are too few or too many: the text is no quad. */
  lemma NoQuad(t: string, parts: seq<string>, u: string)
    requires Progress(t, parts, u) && |parts| < 4
    requires !IsOctet(u[..Find(u, {'.'})]) || (Find(u, {'.'}) == |u| <==> |parts| < 3)
    ensures Octets(t) == None
  {
    var i, n := Find(u, {'.'}), |parts|;
    var f := Fields(t, '.');
    assert f[n] == Fields(u, '.')[0] == u[..i];
    if IsOctet(u[..i]) && i < |u| { assert |Fields(u, '.')| == 1 + |Fields(u[i + 1..], '.')|; }
  }

  lemma OctetStep(t: string, parts: seq<string>, u: string)
    requires Progress(t, parts, u)
    requires var i := Find(u, {'.'}); IsOctet(u[..i]) && i < |u|
    ensures var i := Find(u, {'.'}); Progress(t, parts + [u[..i]], u[i + 1..])
  {
  }

  lemma QuadRead(t: string, parts: seq<string>, u: string)
    requires Progress(t, parts, u) && |parts| == 3 && IsOctet(u) && Find(u, {'.'}) == |u|
    ensures Octets(t) == Some(OctetValues(parts + [u]))
  {
    WholeSlice(u);
    assert Fields(t, '.') == parts + [u];
  }

  lemma OctetValuesSnoc(parts: seq<string>, field: string)
    requires (forall k | 0 <= k < |parts| :: IsOctet(parts[k])) && IsOctet(field)
    ensures OctetValues(parts + [field]) == OctetValues(parts) + [NumberUpTo(field, 255).value]
  {
  }

  /** One turn of the octet loop: an octet, then a dot or, after the fourth, the end. */
  method NextOctet(buf: array<char>, p: nat, ghost u: string, last: bool) returns (ok: bool, val: nat, next: nat)
    requires IsCStr(buf[..], p, u)
    ensures var i := Find(u, {'.'});
      && (ok <==> IsOctet(u[..i]) && (i == |u| <==> last))
      && (ok ==> NumberUpTo(u[..i], 255) == Some(val))
      && (ok && !last ==> next == p + i + 1 && IsCStr(buf[..], next, u[i + 1..]))
  {
    var n;
    ok, val, n := ParseOctet(buf, p, u);
    if !ok { return false, 0, p; }
    FieldAfterDigits(u, n);
    CStrAt(buf[..], p, u, n);
    if last {
      return buf[p + n] == NUL, val, p + n;
    }
    if buf[p + n] != '.' { return false, 0, p; }
    CStrSuffix(buf[..], p, u, n + 1);
    next := p + n + 1;
  }

  /** The four-octet loop over a dotted text. */
  method ParseOctets(buf: array<char>, ghost t: string) returns (ok: bool, octets: array<nat>)
    requires IsCStr(buf[..], 0, t)
    ensures octets.Length == 4 && fresh(octets)
    ensures ok <==> Octets(t).Some?
    ensures ok ==> octets[..] == Octets(t).value
  {
    octets := new nat[4];
    var p, noctets := 0, 0;
    ghost var u, parts: seq<string> := t, [];
    while noctets < 4
      invariant noctets <= 3 ==> Progress(t, parts, u) && |parts| == noctets && IsCStr(buf[..], p, u)
      invariant noctets <= 4
      invariant noctets <= 3 ==> octets[..noctets] == OctetValues(parts)
      invariant noctets == 4 ==> Octets(t) == Some(octets[..])
    {
      var good, val, next := NextOctet(buf, p, u, noctets == 3);
      if !good { NoQuad(t, parts, u); return false, octets; }
      ghost var i := Find(u, {'.'});
      OctetValuesSnoc(parts, u[..i]);
      ghost var before := octets[..noctets];
      octets[noctets] := val;
      assert octets[..noctets + 1] == before + [val];
      if noctets == 3 {
        WholeSlice(u);
        QuadRead(t, parts, u);
        assert octets[..] == octets[..4];
      } else {
        OctetStep(t, parts, u);
        parts, u := parts + [u[..i]], u[i + 1..];
      }
      p := next;
      noctets := noctets + 1;
    }
    ok := true;
  }

  lemma FourBytes(os: seq<nat>)
    requires |os| == 4
    ensures Value(os) == os[0] * 0x100_0000 + os[1] * 0x1_0000 + os[2] * 0x100 + os[3]
  {
    var c, d, e := os[..3], os[..2], os[..1];
    assert c[..2] == d && d[..1] == e && e[..0] == [];
    assert Value(e) == os[0];
    assert Value(d) == os[0] * 0x100 + os[1];
    assert Value(c) == os[0] * 0x1_0000 + os[1] * 0x100 + os[2];
  }

  /** Separates the address from the prefix length into a 16-byte buffer; `slash` is -1 without one. */
  method SeparateV4(buf: array<char>, p: nat, addrbuf: array<char>, ghost t: string) returns (ok: bool, slash: int)
    requires IsCStr(buf[..], p, t) && addrbuf != buf && addrbuf.Length == 16
    modifies addrbuf
    ensures ok <==> |AddrPart(t)| < 16
    ensures ok ==> IsCStr(addrbuf[..], 0, AddrPart(t))
    ensures slash == if Find(t, {'/'}) == |t| then -1 else p + Find(t, {'/'})
  {
    slash := StrChr(buf, p, '/', t);
    WholeSlice(t);
    if slash != -1 {
      if slash - p >= 16 { return false, slash; }
      StrLCpy(addrbuf, buf, p, slash - p + 1, t);
    } else {
      var n := StrNLen(buf, p, 16, t);
      if n >= 16 { return false, slash; }
      StrLCpy(addrbuf, buf, p, 16, t);
    }
    ok := true;
  }

  /** The prefix length after the slash, the longest one without a slash. */
  method ReadPrefix(buf: array<char>, p: nat, slash: int, max: nat, ghost t: string) returns (r: Option<nat>)
    requires IsCStr(buf[..], p, t) && max < 1000
    requires slash == if Find(t, {'/'}) == |t| then -1 else p + Find(t, {'/'})
    ensures r == PrefixPart(t, max)
  {
    if slash == -1 { return Some(max); }
    CStrSuffix(buf[..], p, t, slash - p + 1);
    r := ParsePrefixLength(buf, slash + 1, max, t[slash - p + 1..]);
  }

  /** `tsf_parse_ipv4_addr`: address and netmask, or an error. */
  method ParseIpv4Addr(buf: array<char>, p: nat, ghost t: string) returns (ok: bool, addr: nat, mask: nat)
    requires IsCStr(buf[..], p, t)
    ensures ok <==> ParseV4(t).Some?
    ensures ok ==> addr == ParseV4(t).value.addr && mask == Mask4(ParseV4(t).value.prefix)
  {
    var addrbuf := new char[16];
    var good, slash := SeparateV4(buf, p, addrbuf, t);
    if !good { LongAddress(t); return false, 0, 0; }
    var prefix := ReadPrefix(buf, p, slash, 32, t);
    if prefix.None? { return false, 0, 0; }
    var octets;
    good, octets := ParseOctets(addrbuf, AddrPart(t));
    if !good { return false, 0, 0; }
    ok, addr, mask := CombineV4(octets[..], prefix.value);
  }

  /** Joins four octets, computes the netmask and checks that the host bits are zero. */
  method CombineV4(octets: seq<nat>, prefix: nat) returns (ok: bool, addr: nat, mask: nat)
    requires |octets| == 4 && IsBytes(octets) && prefix <= 32
    ensures addr == Value(octets) && mask == Mask4(prefix)
    ensures ok <==> Low(addr, 32 - prefix) == 0
  {
    FourBytes(octets);
    addr := octets[0] * 0x100_0000 + octets[1] * 0x1_0000 + octets[2] * 0x100 + octets[3];
    mask := Mask4(prefix);
    AndHost4(addr, prefix);
    ok := And(addr, 0xFFFF_FFFF - mask) == 0;
  }

  /** No address of sixteen characters or more is a dotted quad. */
  lemma LongAddress(t: string)
    requires |AddrPart(t)| >= 16
    ensures ParseV4(t) == None
  {
    var s := AddrPart(t);
    if Octets(s).Some? {
      var parts := Fields(s, '.');
      forall k | 0 <= k < 4 ensures |parts[k]| <= 3 { assert IsOctet(parts[k]); LongIsLarge(parts[k]); }
      JoinOfFields(s, '.');
      JoinFour(parts);
    }
  }

  lemma JoinFour(parts: seq<string>)
    requires |parts| == 4
    ensures |Join(parts, '.')| == |parts[0]| + |parts[1]| + |parts[2]| + |parts[3]| + 3
  {
    var b, c, d := parts[1..], parts[2..], parts[3..];
    assert b[1..] == c && c[1..] == d;
    assert Join(d, '.') == parts[3];
    assert Join(c, '.') == parts[2] + ['.'] + Join(d, '.');
    assert Join(b, '.') == parts[1] + ['.'] + Join(c, '.');
  }
}
