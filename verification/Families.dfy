/**
 What a client sees of the address and version it filtered by.  The matcher looks at a socket's IPv4 bit first and the
 record filler at its IPv6 bit first, so a socket with both bits is selected by one address and shown with the other.
 */
module Families {
  import opened Text
  import opened Bits
  import opened Cidr
  import opened Ipv4
  import opened Ipv6
  import opened Filter
  import opened Matching
  import opened Meaning
  import opened Printing
  import opened Record
  import opened Kld
  import opened Scan
  import opened Device

  function ShownAddr(r: Raw, dir: Direction): IpAddr { if dir == Local then r.localAddr else r.remoteAddr }

  /** The shown address is an IPv4 address of the network. */
  predicate Shown4In(a: IpAddr, n: Net4)
    requires IsNet4(n)
  {
    a.V4? && InBlock(Value(a.bytes), n.addr, 32 - n.prefix)
  }

  /** The shown address is an IPv6 address that the filter means. */
  predicate Shown6In(a: IpAddr, n: Net6)
    requires IsNet6(n)
  {
    a.V6? && Block6Has(n, a.bytes)
  }

  // ---------------------------------------------------------------- one socket

  /** An IPv4 network filter that selects a socket by its IPv4 address shows an address of the network exactly when the
      socket has not the IPv6 bit too. */
  lemma Shown4(r: Raw, s: Socket, dir: Direction, n: Net4)
    requires IsSocket(s) && Shows(r, s) && s.ipv4 && IsNet4(n) && Holds(Addr4(dir, n), s)
    ensures Shown4In(ShownAddr(r, dir), n) <==> !s.ipv6
  {
    hide InBlock, IsNet4;
    Bytes4(EndOf(s, dir).addr4);
  }

  /** An IPv6 network filter shows an address it means for every socket that has only the IPv6 bit. */
  lemma Shown6(r: Raw, s: Socket, dir: Direction, n: Net6)
    requires IsSocket(s) && Shows(r, s) && s.ipv6 && !s.ipv4 && IsNet6(n) && Holds(Addr6(dir, n), s)
    ensures Shown6In(ShownAddr(r, dir), n)
  {
    hide Block6Has, IsNet6;
  }

  /** A record of version 4 is a socket without the IPv6 bit, whatever its IPv4 bit. */
  lemma ShownVersion(r: Raw, s: Socket)
    requires IsSocket(s) && Shows(r, s)
    ensures (r.ipVersion == 4 <==> !s.ipv6) && (r.ipVersion == 6 <==> s.ipv6)
  {
  }

  // ---------------------------------------------------------------- all sockets with the same two bits

  /** A decoded record of a socket. */
  function RawOf(s: Socket): (r: Raw)
    requires IsSocket(s)
    ensures Shows(r, s)
  {
    var near := if s.ipv6 then V6(s.near.addr6) else V4(Bytes(s.near.addr4, 4));
    var far := if s.ipv6 then V6(s.far.addr6) else V4(Bytes(s.far.addr4, 4));
    Raw(near, far, if s.ipv6 then 6 else 4, s.near.port, s.far.port, s.id, StateNumber(s), [], 0, s.gencnt, None, None,
        [DATA_SOURCE_FREEBSD_KLD])
  }

  /** A socket with these bits and the same address at both ends. */
  function SocketWith(ipv4: bool, ipv6: bool, a4: nat, a6: seq<nat>): (s: Socket)
    requires a4 < 0x1_0000_0000 && IsAddr6(a6)
    ensures IsSocket(s)
  {
    Socket(1, 0, true, ipv4, ipv6, Some(4), End(80, a4, a6), End(80, a4, a6))
  }

  /** Every socket with these bits that the filter selects is shown with an address of the network. */
  ghost predicate Promise4(dir: Direction, n: Net4, ipv4: bool, ipv6: bool)
    requires IsNet4(n)
  {
    forall s: Socket | IsSocket(s) && s.ipv4 == ipv4 && s.ipv6 == ipv6 && Holds(Addr4(dir, n), s) ::
      Shown4In(ShownAddr(RawOf(s), dir), n)
  }

  ghost predicate Promise6(dir: Direction, n: Net6, ipv4: bool, ipv6: bool)
    requires IsNet6(n)
  {
    forall s: Socket | IsSocket(s) && s.ipv4 == ipv4 && s.ipv6 == ipv6 && Holds(Addr6(dir, n), s) ::
      Shown6In(ShownAddr(RawOf(s), dir), n)
  }

  lemma OutsideNet4(n: Net4) returns (x: nat)
    requires IsNet4(n) && n.prefix > 0
    ensures x < 0x1_0000_0000 && !InBlock(x, n.addr, 32 - n.prefix)
  {
    hide Low;
    if n.addr > 0 { return 0; }
    Pow2Facts();
    Pow2Add(1, 31);
    Pow2Mono(32 - n.prefix, 31);
    x := 0xFFFF_FFFF;
  }

  /** The promise of an IPv4 network filter, other than one that means every address, is kept for exactly the sockets
      that have the IPv4 bit and not the IPv6 bit. */
  lemma KeepsPromise4(dir: Direction, n: Net4, ipv4: bool, ipv6: bool)
    requires IsNet4(n) && n.prefix > 0
    ensures Promise4(dir, n, ipv4, ipv6) <==> ipv4 && !ipv6
  {
    hide IsNet4, InBlock, IsSocket, Bytes;
    if ipv4 && !ipv6 {
      forall s: Socket | IsSocket(s) && s.ipv4 == ipv4 && s.ipv6 == ipv6 && Holds(Addr4(dir, n), s)
        ensures Shown4In(ShownAddr(RawOf(s), dir), n)
      {
        Shown4(RawOf(s), s, dir, n);
      }
    } else {
      var x := OutsideNet4(n);
      NetIn(n);
      Bytes4(x);
      var s := SocketWith(ipv4, ipv6, if ipv4 then n.addr else x, Zeros(16));
      assert Holds(Addr4(dir, n), s) && !Shown4In(ShownAddr(RawOf(s), dir), n);
    }
  }

  lemma NetIn(n: Net4)
    requires IsNet4(n)
    ensures n.addr < 0x1_0000_0000 && InBlock(n.addr, n.addr, 32 - n.prefix)
  {
  }

  /** The promise of an IPv6 network filter, other than one that means every address, is kept for exactly the sockets
      that have the IPv6 bit and not the IPv4 bit. */
  lemma KeepsPromise6(dir: Direction, n: Net6, ipv4: bool, ipv6: bool)
    requires IsNet6(n) && n.prefix > 0 && Value(n.addr) != 0
    ensures Promise6(dir, n, ipv4, ipv6) <==> ipv6 && !ipv4
  {
    hide IsNet6, Block6Has, IsSocket, Bytes, Value;
    if ipv6 && !ipv4 {
      forall s: Socket | IsSocket(s) && s.ipv4 == ipv4 && s.ipv6 == ipv6 && Holds(Addr6(dir, n), s)
        ensures Shown6In(ShownAddr(RawOf(s), dir), n)
      {
        Shown6(RawOf(s), s, dir, n);
      }
    } else {
      ZeroOutside(n);
      var s := SocketWith(ipv4, ipv6, 0, Zeros(16));
      assert Holds(Addr6(dir, n), s) && !Shown6In(ShownAddr(RawOf(s), dir), n);
    }
  }

  lemma ZeroOutside(n: Net6)
    requires IsNet6(n) && n.prefix > 0 && Value(n.addr) != 0
    ensures !Block6Has(n, Zeros(16))
  {
    ValueZero(Zeros(16));
  }

  // ---------------------------------------------------------------- the failing input

  lemma RunOne(tok: string, f: Filter)
    ensures Run([tok], f) == Step(tok, f)
  {
    hide Step;
    assert [tok][1..] == [];
  }

  /** A string of one directive asks for exactly the sockets it holds of. */
  lemma OneDirective(d: Directive, gencnt: nat, s: Socket)
    requires (d.Addr4? || d.Ipv4Only?) && IsDirective(d) && IsSocket(s) && s.gencnt <= gencnt && s.visible
    ensures Compile(Print(d)).Compiled? && Tokens(Print(d)) == [Print(d)]
    ensures Asked(Print(d), gencnt, s) <==> Holds(d, s)
  {
    hide Print, Says, IsNet4, IsSocket, Tokens, ParseToken, Printable, Mask4, InBlock;
    var input := Print(d);
    PrintShort(d);
    PrintedIsRead(d);
    TokensOfJoin([input]);
    assert Join([input], ' ') == input;
    assert input[0] in input;
    RunOne(input, DEFAULT_FILTER);
    TokenMeaning(input, s);
  }

  /** Every socket with both bits whose IPv4 address is in the network is selected by the network's filter, and shown
      with its IPv6 address. */
  lemma DualBitShown(dir: Direction, n: Net4, gencnt: nat, s: Socket, r: Raw)
    requires IsNet4(n) && IsSocket(s) && s.ipv4 && s.ipv6 && s.gencnt <= gencnt && s.visible && Shows(r, s)
    requires InBlock(EndOf(s, dir).addr4, n.addr, 32 - n.prefix)
    ensures Compile(Print(Addr4(dir, n))).Compiled? && Asked(Print(Addr4(dir, n)), gencnt, s)
    ensures r.ipVersion == 6 && ShownAddr(r, dir) == V6(EndOf(s, dir).addr6)
  {
    hide Asked, Compile, Print, IsNet4, InBlock;
    OneDirective(Addr4(dir, n), gencnt, s);
  }

  /** And every socket with both bits is selected by `ipv4_only`, and shown as version 6. */
  lemma DualBitVersion(gencnt: nat, s: Socket, r: Raw)
    requires IsSocket(s) && s.ipv4 && s.ipv6 && s.gencnt <= gencnt && s.visible && Shows(r, s)
    ensures Compile("ipv4_only").Compiled? && Asked("ipv4_only", gencnt, s) && r.ipVersion == 6
  {
    hide Asked, Compile;
    OneDirective(Ipv4Only, gencnt, s);
  }

  /** 10.0.0.1 and `::1`. */
  const DUAL_BIT: Socket := SocketWith(true, true, 0x0A00_0001, [0, 0, 0, 0, 0, 0, 0, 0, 0, 0, 0, 0, 0, 0, 0, 1])

  /** A concrete one: the filter for 10.0.0.1 selects it, and its record shows `::1`. */
  lemma DualBitExample()
    ensures IsNet4(Net4(0x0A00_0001, 32))
    ensures Asked(Print(Addr4(Local, Net4(0x0A00_0001, 32))), 0, DUAL_BIT)
    ensures !Shown4In(ShownAddr(RawOf(DUAL_BIT), Local), Net4(0x0A00_0001, 32))
  {
    hide Asked, Print;
    var n := Net4(0x0A00_0001, 32);
    NetIn(n);
    DualBitShown(Local, n, 0, DUAL_BIT, RawOf(DUAL_BIT));
    Shown4(RawOf(DUAL_BIT), DUAL_BIT, Local, n);
  }

  // ---------------------------------------------------------------- from end to end

  /** What a directive promises about the record of a socket that was selected, and when. */
  predicate Kept(d: Directive, s: Socket, r: Raw)
    requires IsDirective(d)
  {
    match d
    case Addr4(dir, n) => s.ipv4 ==> (Shown4In(ShownAddr(r, dir), n) <==> !s.ipv6)
    case Addr6(dir, n) => s.ipv6 && !s.ipv4 ==> Shown6In(ShownAddr(r, dir), n)
    case Ipv4Only => r.ipVersion == 4 <==> !s.ipv6
    case Ipv6Only => r.ipVersion == 6
    case _ => true
  }

  lemma HeldIsKept(d: Directive, s: Socket, r: Raw)
    requires IsDirective(d) && IsSocket(s) && Holds(d, s) && Shows(r, s)
    ensures Kept(d, s, r)
  {
    hide Shows, Shown4In, Shown6In, IsNet4, IsNet6;
    ShownVersion(r, s);
    match d
    case Addr4(dir, n) => if s.ipv4 { Shown4(r, s, dir, n); }
    case Addr6(dir, n) => if s.ipv6 && !s.ipv4 { Shown6(r, s, dir, n); }
    case _ =>
  }

  /** Every directive of an accepted string, and every record the client decodes: an address or version filter shows
      what it was asked for exactly for the sockets that do not have the other bit too. */
  lemma ShownEndToEnd(input: string, gencnt: nat, ss: seq<Socket>, resid: nat,
                      deadline: Option<int>, w: World, r: Result, tok: string, i: nat)
    requires Compile(input).Compiled? && AreSockets(ss) && IsWorld(w)
    requires IsScan(r, FilterOf(input), gencnt, ss, resid, deadline, w)
    requires tok in Tokens(input) && ParseToken(tok).Some? && i < |r.records|
    ensures var all, b := Selected(FilterOf(input), gencnt, ss), Concat(r.records);
      && i < |all| && IsBytes(b) && (i + 1) * 320 <= |b| && IsDirective(ParseToken(tok).value)
      && Kept(ParseToken(tok).value, all[i], RecordAt(b, i))
  {
    hide Compile, FilterOf, Shows, VersionAt, RecordAt, Judge, IsFilter, Selected, IsScan, IsWorld, Concat, ParseToken;
    hide Kept, Says, Tokens, IsDirective, Holds;
    EndToEnd(input, gencnt, ss, resid, deadline, w, r);
    var all := Selected(FilterOf(input), gencnt, ss);
    var s := all[i];
    SelectedIn(FilterOf(input), gencnt, ss, s);
    assert Asked(input, gencnt, s);
    TokenMeaning(tok, s);
    HeldIsKept(ParseToken(tok).value, s, RecordAt(Concat(r.records), i));
  }
}
