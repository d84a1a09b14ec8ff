/**
 The filter chain of the scan loop: which sockets a filter struct lets through, and the check that first
 stops the others.
 */
module Matching {
  import opened Text
  import opened Bits
  import opened Cidr
  import opened Ipv6
  import opened Filter

  /** One end of a connection; ports and IPv4 addresses in host order. */
  datatype End = End(port: nat, addr4: nat, addr6: seq<nat>)

  /** What the scan reads of one protocol control block.  The IP version is two independent bits; a block without a
      TCP control block has no state. */
  datatype Socket = Socket(
    id: nat, gencnt: nat, visible: bool, ipv4: bool, ipv6: bool, state: Option<nat>, near: End, far: End)

  predicate IsEnd(e: End) {
    e.port <= 65535 && e.addr4 < 0x1_0000_0000 && IsAddr6(e.addr6)
  }

  predicate IsSocket(s: Socket) {
    && IsEnd(s.near) && IsEnd(s.far) && (s.state.Some? ==> s.state.value <= 10)
    && s.id < 0x1_0000_0000_0000_0000 && s.gencnt < 0x1_0000_0000_0000_0000
  }

  function EndOf(s: Socket, dir: Direction): End { if dir == Local then s.near else s.far }

  /** A filter struct the matcher can run on: array lengths and prefix lengths in range. */
  predicate IsSide(s: Side) {
    |s.ports| == 8 && IsAddr6(s.addr6) && s.prefix6 <= 128
  }

  predicate IsFilter(f: Filter) { IsSide(f.local) && IsSide(f.remote) }

  datatype Verdict = SkipGencnt | SkipIpver | SkipState | SkipCred | SkipPort | SkipAddr | Emit

  /** The port is listed before the first unused slot. */
  predicate Listed(ports: seq<nat>, port: nat) {
    ports != [] && ports[0] != 0 && (ports[0] == port || Listed(ports[1..], port))
  }

  predicate PortPasses(f: Filter, s: Socket, dir: Direction) {
    PortFlag(dir) in f.flags ==> Listed(SideOf(f, dir).ports, EndOf(s, dir).port)
  }

  predicate StatePasses(f: Filter, s: Socket)
    requires IsSocket(s)
  {
    s.state.Some? ==> f.stateMask == ALL_STATES || s.state.value in f.stateMask
  }

  predicate VersionPasses(f: Filter, s: Socket) {
    && (TSF_IPV4_ONLY in f.flags ==> s.ipv4)
    && (TSF_IPV6_ONLY in f.flags ==> s.ipv6)
  }

  /** The IPv4 bit is tested first; an IPv6 network of zero means any. */
  predicate AddrPasses(f: Filter, s: Socket, dir: Direction)
    requires IsFilter(f) && IsSocket(s)
  {
    var side, end := SideOf(f, dir), EndOf(s, dir);
    AddrFlag(dir) in f.flags ==>
      if s.ipv4 then And(end.addr4, side.mask4) == And(side.addr4, side.mask4)
      else if s.ipv6 then
        || side.addr6 == Zeros(16)
        || Shr(Value(end.addr6), 128 - side.prefix6) == Shr(Value(side.addr6), 128 - side.prefix6)
      else true
  }

  /** The outcome of the chain for one socket, first failing check first. */
  function Judge(f: Filter, gencnt: nat, s: Socket): Verdict
    requires IsFilter(f) && IsSocket(s)
  {
    if s.gencnt > gencnt then SkipGencnt
    else if !VersionPasses(f, s) then SkipIpver
    else if !StatePasses(f, s) then SkipState
    else if !s.visible then SkipCred
    else if !PortPasses(f, s, Local) || !PortPasses(f, s, Remote) then SkipPort
    else if !AddrPasses(f, s, Local) || !AddrPasses(f, s, Remote) then SkipAddr
    else Emit
  }

  /** The port loop: stops at the first unused slot or at the first equal port. */
  method FindPort(ports: seq<nat>, port: nat) returns (found: bool)
    requires |ports| == TSF_MAX_PORTS
    ensures found <==> Listed(ports, port)
  {
    var j := 0;
    found := false;
    while j < TSF_MAX_PORTS && ports[j] != 0
      invariant j <= 8 && (Listed(ports, port) <==> Listed(ports[j..], port))
    {
      assert ports[j..][1..] == ports[j + 1..];
      if port == ports[j] { return true; }
      j := j + 1;
    }
  }

  /** The port check of one direction. */
  method CheckPort(f: Filter, s: Socket, dir: Direction) returns (pass: bool)
    requires IsFilter(f)
    ensures pass <==> PortPasses(f, s, dir)
  {
    if PortFlag(dir) !in f.flags { return true; }
    pass := FindPort(SideOf(f, dir).ports, EndOf(s, dir).port);
  }

  /** The address check of one direction. */
  method CheckAddr(f: Filter, s: Socket, dir: Direction) returns (pass: bool)
    requires IsFilter(f) && IsSocket(s)
    ensures pass <==> AddrPasses(f, s, dir)
  {
    var side, end := SideOf(f, dir), EndOf(s, dir);
    pass := true;
    if AddrFlag(dir) in f.flags {
      if s.ipv4 {
        if And(end.addr4, side.mask4) != And(side.addr4, side.mask4) { pass := false; }
      } else if s.ipv6 {
        if side.addr6 != Zeros(16) {
          pass := MatchV6Prefix(end.addr6, side.addr6, side.prefix6);
        }
      }
    }
  }

  method CheckVersion(f: Filter, s: Socket) returns (pass: bool)
    ensures pass <==> VersionPasses(f, s)
  {
    if TSF_IPV4_ONLY in f.flags && !s.ipv4 { return false; }
    if TSF_IPV6_ONLY in f.flags && !s.ipv6 { return false; }
    pass := true;
  }

  method CheckState(f: Filter, s: Socket) returns (pass: bool)
    requires IsSocket(s)
    ensures pass <==> StatePasses(f, s)
  {
    if s.state.Some? {
      if f.stateMask != ALL_STATES && s.state.value !in f.stateMask { return false; }
    }
    pass := true;
  }

  /** The chain of early `continue`s for one visited socket. */
  method RunChain(f: Filter, gencnt: nat, s: Socket) returns (v: Verdict)
    requires IsFilter(f) && IsSocket(s)
    ensures v == Judge(f, gencnt, s)
  {
    hide VersionPasses, StatePasses, PortPasses, AddrPasses;
    if s.gencnt > gencnt { return SkipGencnt; }
    var pass := CheckVersion(f, s);
    if !pass { return SkipIpver; }
    pass := CheckState(f, s);
    if !pass { return SkipState; }
    if !s.visible { return SkipCred; }
    pass := CheckPort(f, s, Local);
    if !pass { return SkipPort; }
    pass := CheckPort(f, s, Remote);
    if !pass { return SkipPort; }
    pass := CheckAddr(f, s, Local);
    if !pass { return SkipAddr; }
    pass := CheckAddr(f, s, Remote);
    if !pass { return SkipAddr; }
    v := Emit;
  }
}
