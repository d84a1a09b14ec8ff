/**
 Meaning preservation: the filter a string is compiled into selects exactly the sockets for which every directive,
 read on its own, holds.  Also the shape every compiled filter has.
 */
module Meaning {
  import opened Text
  import opened Numbers
  import opened Bits
  import opened Cidr
  import opened Ipv4
  import opened Ipv6
  import opened Filter
  import opened Matching

  // ---------------------------------------------------------------- what a directive says about a socket

  /** `text` is an IPv4 network, written out, that contains `x`. */
  ghost predicate WritesBlockWith(text: string, x: nat) {
    exists n: Net4 :: IsNet4(n) && WritesV4(text, n) && InBlock(x, n.addr, 32 - n.prefix)
  }

  /** The IPv6 network contains `x`; a zero network or a zero prefix length contains everything. */
  predicate Block6Has(n: Net6, x: seq<nat>)
    requires IsNet6(n)
  {
    Value(n.addr) == 0 || n.prefix == 0 || InBlock(Value(x), Value(n.addr), 128 - n.prefix)
  }

  /** An address filter constrains only sockets of its own family, and IPv4 comes first. */
  ghost predicate AddrSays(value: string, end: End, s: Socket) {
    if ':' in value then
      !s.ipv4 && s.ipv6 && ParseV6(value).Some? ==> Block6Has(ParseV6(value).value, end.addr6)
    else
      s.ipv4 ==> WritesBlockWith(value, end.addr4)
  }

  /** Some item of the list is a name of the socket's state. */
  predicate NamesState(value: string, state: nat) {
    exists i | 0 <= i < |Items(value, {','})| :: StateOf(Items(value, {','})[i]) == Some(state)
  }

  /** What one token, read on its own, says about a socket. */
  ghost predicate Says(tok: string, s: Socket) {
    var key := KeyOf(tok);
    if !HasValue(tok) then
      (key == "ipv4_only" ==> s.ipv4) && (key == "ipv6_only" ==> s.ipv6)
    else
      var value := ValueOf(tok);
      && (key == "local_port" ==> Decimal(s.near.port) in Items(value, {','}))
      && (key == "remote_port" ==> Decimal(s.far.port) in Items(value, {','}))
      && (key == "exclude" && s.state.Some? ==> !NamesState(value, s.state.value))
      && (key == "include_state" && s.state.Some? ==> NamesState(value, s.state.value))
      && (key == "local_addr" ==> AddrSays(value, s.near, s))
      && (key == "remote_addr" ==> AddrSays(value, s.far, s))
  }

  /** The same for a directive that has been read. */
  predicate Holds(d: Directive, s: Socket)
    requires IsDirective(d)
  {
    match d
    case Ipv4Only => s.ipv4
    case Ipv6Only => s.ipv6
    case Ports(dir, ports) => EndOf(s, dir).port in ports
    case Exclude(states) => s.state.Some? ==> s.state.value !in states
    case Include(states) => s.state.Some? ==> s.state.value in states
    case Addr4(dir, n) => s.ipv4 ==> InBlock(EndOf(s, dir).addr4, n.addr, 32 - n.prefix)
    case Addr6(dir, n) => !s.ipv4 && s.ipv6 ==> Block6Has(n, EndOf(s, dir).addr6)
    case Format(_) => true
    case FieldList(_) => true
  }

  // ---------------------------------------------------------------- text and directive agree

  lemma PortsSay(value: string, port: nat)
    requires ReadPorts(value).Some?
    ensures port in ReadPorts(value).value <==> Decimal(port) in Items(value, {','})
  {
    var items, ports := Items(value, {','}), ReadPorts(value).value;
    if port in ports {
      var i :| 0 <= i < |ports| && ports[i] == port;
      PortExact(items[i], port);
      assert items[i] == Decimal(port);
    }
    if Decimal(port) in items {
      var i :| 0 <= i < |items| && items[i] == Decimal(port);
      assert PortOf(items[i]) == Some(ports[i]);
      PortExact(items[i], ports[i]);
      DecimalInjective(port, ports[i]);
    }
  }

  lemma StatesSay(value: string, state: nat)
    requires ReadStates(value).Some?
    ensures state in ReadStates(value).value <==> NamesState(value, state)
  {
    var items, states := Items(value, {','}), ReadStates(value).value;
    assert forall i | 0 <= i < |items| :: StateOf(items[i]) == Some(states[i]);
    if state in states {
      var i :| 0 <= i < |states| && states[i] == state;
      assert StateOf(items[i]) == Some(state);
    }
  }

  lemma AddrMeansBlock(dir: Direction, value: string, s: Socket)
    requires ReadAddr(dir, value).Some? && IsDirective(ReadAddr(dir, value).value)
    ensures Holds(ReadAddr(dir, value).value, s) <==> AddrSays(value, EndOf(s, dir), s)
  {
    hide ParseV4, ParseV6, WritesV4, Block6Has, InBlock, Low;
    if ':' !in value {
      var n, x := ParseV4(value).value, EndOf(s, dir).addr4;
      V4Exact(value, n);
      if WritesBlockWith(value, x) {
        var m: Net4 :| IsNet4(m) && WritesV4(value, m) && InBlock(x, m.addr, 32 - m.prefix);
        V4Exact(value, m);
      }
    }
  }

  /** A token that is read as a directive says what the directive says. */
  lemma TokenMeaning(tok: string, s: Socket)
    requires ParseToken(tok).Some?
    ensures IsDirective(ParseToken(tok).value)
    ensures Holds(ParseToken(tok).value, s) <==> Says(tok, s)
  {
    hide Items, ReadAll, Decimal, Lookup, Find, Lower;
    ParsedIsDirective(tok);
    if HasValue(tok) {
      var key, value := KeyOf(tok), ValueOf(tok);
      if key == "exclude" || key == "include_state" {
        if s.state.Some? { StatesSay(value, s.state.value); }
      } else if key == "local_port" {
        PortsSay(value, s.near.port);
      } else if key == "remote_port" {
        PortsSay(value, s.far.port);
      } else if key == "local_addr" {
        AddrMeansBlock(Local, value, s);
      } else if key == "remote_addr" {
        AddrMeansBlock(Remote, value, s);
      }
    }
  }

  // ---------------------------------------------------------------- IPv6 texts of RFC 4291

  lemma JoinHasColon(gs: seq<string>)
    requires |gs| >= 2
    ensures ':' in Colons(gs)
  {
    assert Join(gs, ':') == gs[0] + [':'] + Join(gs[1..], ':');
    assert Join(gs, ':')[|gs[0]|] == ':';
  }

  lemma SpelledHasColon(t: string, gs: seq<nat>)
    requires Spells6(t, gs)
    ensures ':' in t
  {
    if all: seq<string> :| AllGroups(all) && |all| == 8 && t == Colons(all) && gs == GroupVals(all) {
      JoinHasColon(all);
    } else {
      var pre: seq<string>, post: seq<string> :|
        && AllGroups(pre) && AllGroups(post) && |pre| + |post| <= 7
        && t == Colons(pre) + "::" + Colons(post)
        && gs == GroupVals(pre) + Zeros(8 - |pre| - |post|) + GroupVals(post);
      assert t[|Colons(pre)|] == ':';
    }
  }

  predicate SmallGroups(gs: seq<nat>) { forall i | 0 <= i < |gs| :: gs[i] < 0x1_0000 }

  lemma GroupValsSmall(gs: seq<string>)
    requires AllGroups(gs)
    ensures SmallGroups(GroupVals(gs))
  {
    hide HexVal;
    forall i | 0 <= i < |gs| ensures GroupVals(gs)[i] < 0x1_0000 { GroupBound(gs[i]); }
  }

  lemma SmallWithGap(a: seq<nat>, n: nat, b: seq<nat>)
    requires SmallGroups(a) && SmallGroups(b)
    ensures SmallGroups(a + Zeros(n) + b)
  {
  }

  lemma SpelledSmall(t: string, gs: seq<nat>)
    requires Spells6(t, gs)
    ensures SmallGroups(gs)
  {
    hide HexVal, SmallGroups, Colons, AllGroups, GroupVals, Zeros;
    if all: seq<string> :| AllGroups(all) && |all| == 8 && t == Colons(all) && gs == GroupVals(all) {
      GroupValsSmall(all);
    } else {
      var pre: seq<string>, post: seq<string> :|
        && AllGroups(pre) && AllGroups(post) && |pre| + |post| <= 7
        && t == Colons(pre) + "::" + Colons(post)
        && gs == GroupVals(pre) + Zeros(8 - |pre| - |post|) + GroupVals(post);
      GroupValsSmall(pre);
      GroupValsSmall(post);
      SmallWithGap(GroupVals(pre), 8 - |pre| - |post|, GroupVals(post));
    }
  }

  /** An address filter with an RFC 4291 text says that the socket's 128-bit address lies in the written block, for
      sockets that are IPv6 only; a zero network or prefix length says nothing. */
  lemma SpelledBlock(value: string, t: string, gs: seq<nat>, p: nat, end: End, s: Socket)
    requires Spells6(t, gs) && p <= 128 && Writes(value, t, p, 128) && ParseV6(value).Some?
    ensures AddrSays(value, end, s) <==>
      (!s.ipv4 && s.ipv6 ==>
         GroupsValue(gs) == 0 || p == 0 || InBlock(Value(end.addr6), GroupsValue(gs), 128 - p))
  {
    hide Spells6, GroupBytes, Value, GroupsValue, InBlock, ParseV6;
    V6TextExact(value, t, gs, p);
    SpelledSmall(t, gs);
    GroupBytesValue(gs);
    SpelledHasColon(t, gs);
    assert ':' in value;
  }

  // ---------------------------------------------------------------- the filter while it is being built

  /** A direction without its flags has no conditions yet. */
  predicate Fresh(f: Filter, dir: Direction) {
    var s := SideOf(f, dir);
    && IsSide(s)
    && (PortFlag(dir) !in f.flags ==> s.ports == Zeros(8))
    && (AddrFlag(dir) !in f.flags ==> s.addr4 == 0 && s.mask4 == 0 && s.addr6 == Zeros(16) && s.prefix6 == 0)
  }

  predicate Building(f: Filter) { Fresh(f, Local) && Fresh(f, Remote) }

  predicate Passes(f: Filter, s: Socket)
    requires IsFilter(f) && IsSocket(s)
  {
    && VersionPasses(f, s) && StatePasses(f, s)
    && PortPasses(f, s, Local) && PortPasses(f, s, Remote)
    && AddrPasses(f, s, Local) && AddrPasses(f, s, Remote)
  }

  /** The four checks of the chain that a directive can add a condition to. */
  datatype Check = OnVersion | OnState | OnPort | OnAddr | Never

  function CheckOf(d: Directive): Check {
    match d
    case Ipv4Only => OnVersion
    case Ipv6Only => OnVersion
    case Ports(_, _) => OnPort
    case Exclude(_) => OnState
    case Include(_) => OnState
    case Addr4(_, _) => OnAddr
    case Addr6(_, _) => OnAddr
    case _ => Never
  }

  predicate PassesCheck(k: Check, f: Filter, s: Socket)
    requires IsFilter(f) && IsSocket(s)
  {
    match k
    case OnVersion => VersionPasses(f, s)
    case OnState => StatePasses(f, s)
    case OnPort => PortPasses(f, s, Local) && PortPasses(f, s, Remote)
    case OnAddr => AddrPasses(f, s, Local) && AddrPasses(f, s, Remote)
    case Never => true
  }

  lemma {:induction false} PadLists(ports: seq<nat>, n: nat, port: nat)
    requires forall i | 0 <= i < |ports| :: ports[i] != 0
    ensures Listed(ports + Zeros(n), port) <==> port in ports
  {
    var all := ports + Zeros(n);
    if ports == [] {
      if n > 0 { assert all[0] == 0; }
    } else {
      PadLists(ports[1..], n, port);
      assert all[1..] == ports[1..] + Zeros(n);
    }
  }

  // ---------------------------------------------------------------- each check, before and after

  lemma SameVersion(f: Filter, g: Filter, s: Socket)
    requires TSF_IPV4_ONLY in g.flags <==> TSF_IPV4_ONLY in f.flags
    requires TSF_IPV6_ONLY in g.flags <==> TSF_IPV6_ONLY in f.flags
    ensures VersionPasses(g, s) == VersionPasses(f, s)
  {
  }

  lemma SameState(f: Filter, g: Filter, s: Socket)
    requires IsSocket(s) && g.stateMask == f.stateMask
    ensures StatePasses(g, s) == StatePasses(f, s)
  {
  }

  lemma SamePort(f: Filter, g: Filter, s: Socket, dir: Direction)
    requires PortFlag(dir) in g.flags <==> PortFlag(dir) in f.flags
    requires SideOf(g, dir).ports == SideOf(f, dir).ports
    ensures PortPasses(g, s, dir) == PortPasses(f, s, dir)
  {
  }

  lemma SameAddr(f: Filter, g: Filter, s: Socket, dir: Direction)
    requires IsFilter(f) && IsFilter(g) && IsSocket(s)
    requires AddrFlag(dir) in g.flags <==> AddrFlag(dir) in f.flags
    requires var a, b := SideOf(f, dir), SideOf(g, dir);
      a.addr4 == b.addr4 && a.mask4 == b.mask4 && a.addr6 == b.addr6 && a.prefix6 == b.prefix6
    ensures AddrPasses(g, s, dir) == AddrPasses(f, s, dir)
  {
  }

  lemma NewPorts(g: Filter, s: Socket, dir: Direction, ports: seq<nat>)
    requires |ports| <= 8 && (forall i | 0 <= i < |ports| :: ports[i] != 0)
    requires PortFlag(dir) in g.flags && SideOf(g, dir).ports == Pad(ports)
    ensures PortPasses(g, s, dir) <==> EndOf(s, dir).port in ports
  {
    PadLists(ports, 8 - |ports|, EndOf(s, dir).port);
  }

  lemma NewAddr4(g: Filter, s: Socket, dir: Direction, n: Net4)
    requires IsFilter(g) && IsSocket(s) && IsNet4(n) && AddrFlag(dir) in g.flags
    requires var a := SideOf(g, dir); a.addr4 == n.addr && a.mask4 == Mask4(n.prefix) && a.addr6 == Zeros(16)
    ensures AddrPasses(g, s, dir) <==> Holds(Addr4(dir, n), s)
  {
    MaskIsBlock(EndOf(s, dir).addr4, n.addr, n.prefix);
  }

  lemma AndZero(x: nat)
    ensures And(x, 0) == 0 && And(0, x) == 0
  {
  }

  lemma NewAddr6(g: Filter, s: Socket, dir: Direction, n: Net6)
    requires IsFilter(g) && IsSocket(s) && IsNet6(n) && AddrFlag(dir) in g.flags
    requires var a := SideOf(g, dir); a.addr4 == 0 && a.mask4 == 0 && a.addr6 == n.addr && a.prefix6 == n.prefix
    ensures AddrPasses(g, s, dir) <==> Holds(Addr6(dir, n), s)
  {
    AndZero(EndOf(s, dir).addr4);
    AndZero(0);
    NetworkMatch(n, EndOf(s, dir).addr6);
  }

  /** The kernel's IPv6 test is membership in the block, except that a zero network has everything. */
  lemma NetworkMatch(n: Net6, x: seq<nat>)
    requires IsNet6(n) && IsAddr6(x)
    ensures n.addr == Zeros(16) || Shr(Value(x), 128 - n.prefix) == Shr(Value(n.addr), 128 - n.prefix)
       <==> Block6Has(n, x)
  {
    ZeroAddr(n.addr);
    if n.prefix == 0 {
      PrefixZeroMatchesAll(x, n.addr, 128 - n.prefix);
    } else {
      ShiftIsBlock(Value(x), Value(n.addr), 128 - n.prefix);
    }
  }

  lemma ZeroAddr(a: seq<nat>)
    requires IsAddr6(a)
    ensures Value(a) == 0 <==> a == Zeros(16)
  {
    ValueZero(a);
    if Value(a) == 0 { assert a == Zeros(16); }
  }

  lemma NewStates(f: Filter, g: Filter, s: Socket, states: seq<nat>)
    requires IsSocket(s) && g.stateMask == f.stateMask - StateBits(states)
    ensures StatePasses(g, s) <==> StatePasses(f, s) && (s.state.Some? ==> s.state.value !in states)
  {
    if s.state.Some? { assert s.state.value in ALL_STATES; }
  }

  lemma NewStateList(g: Filter, s: Socket, states: seq<nat>)
    requires IsSocket(s) && g.stateMask == StateBits(states)
    ensures StatePasses(g, s) <==> (s.state.Some? ==> s.state.value in states)
  {
    if s.state.Some? { assert s.state.value in ALL_STATES; }
  }

  lemma NoFlagNoCheck(f: Filter, s: Socket, dir: Direction)
    requires IsFilter(f) && IsSocket(s)
    ensures PortFlag(dir) !in f.flags ==> PortPasses(f, s, dir)
    ensures AddrFlag(dir) !in f.flags ==> AddrPasses(f, s, dir)
    ensures f.stateMask == ALL_STATES ==> StatePasses(f, s)
  {
  }

  // ---------------------------------------------------------------- one directive

  lemma BuildingStep(d: Directive, f: Filter)
    requires IsDirective(d) && Building(f) && Apply(d, f).Some?
    ensures Building(Apply(d, f).value)
  {
  }

  lemma PortsStep(d: Directive, f: Filter, s: Socket, k: Check)
    requires IsDirective(d) && d.Ports? && Building(f) && IsSocket(s)
    requires Apply(d, f).Some? && IsFilter(Apply(d, f).value)
    ensures PassesCheck(k, Apply(d, f).value, s) <==> PassesCheck(k, f, s) && (k == CheckOf(d) ==> Holds(d, s))
  {
    hide Listed, PortPasses, AddrPasses, StatePasses, VersionPasses;
    var g, other := Apply(d, f).value, if d.dir == Local then Remote else Local;
    SameVersion(f, g, s);
    SameState(f, g, s);
    SamePort(f, g, s, other);
    SameAddr(f, g, s, Local);
    SameAddr(f, g, s, Remote);
    NoFlagNoCheck(f, s, d.dir);
    NewPorts(g, s, d.dir, d.ports);
  }

  lemma AddrStep(d: Directive, f: Filter, s: Socket, k: Check)
    requires IsDirective(d) && (d.Addr4? || d.Addr6?) && Building(f) && IsSocket(s)
    requires Apply(d, f).Some? && IsFilter(Apply(d, f).value)
    ensures PassesCheck(k, Apply(d, f).value, s) <==> PassesCheck(k, f, s) && (k == CheckOf(d) ==> Holds(d, s))
  {
    hide Listed, PortPasses, AddrPasses, StatePasses, VersionPasses, Mask4, InBlock, IsNet4, Block6Has;
    var g, other := Apply(d, f).value, if d.dir == Local then Remote else Local;
    SameVersion(f, g, s);
    SameState(f, g, s);
    SamePort(f, g, s, Local);
    SamePort(f, g, s, Remote);
    SameAddr(f, g, s, other);
    NoFlagNoCheck(f, s, d.dir);
    if d.Addr4? { NewAddr4(g, s, d.dir, d.net4); } else { NewAddr6(g, s, d.dir, d.net6); }
  }

  lemma OtherStep(d: Directive, f: Filter, s: Socket, k: Check)
    requires IsDirective(d) && !d.Ports? && !d.Addr4? && !d.Addr6? && Building(f) && IsSocket(s)
    requires Apply(d, f).Some? && IsFilter(Apply(d, f).value)
    ensures PassesCheck(k, Apply(d, f).value, s) <==> PassesCheck(k, f, s) && (k == CheckOf(d) ==> Holds(d, s))
  {
    hide Listed, PortPasses, AddrPasses, StatePasses;
    var g := Apply(d, f).value;
    SamePort(f, g, s, Local);
    SamePort(f, g, s, Remote);
    SameAddr(f, g, s, Local);
    SameAddr(f, g, s, Remote);
    match d
    case Exclude(states) => NewStates(f, g, s, states);
    case Include(states) => NewStateList(g, s, states); NoFlagNoCheck(f, s, Local);
    case _ => SameState(f, g, s);
  }

  /** A directive adds its condition to its own check and changes no other check. */
  lemma CheckStep(d: Directive, f: Filter, s: Socket, k: Check)
    requires IsDirective(d) && Building(f) && IsSocket(s) && Apply(d, f).Some?
    ensures Building(Apply(d, f).value)
    ensures PassesCheck(k, Apply(d, f).value, s) <==> PassesCheck(k, f, s) && (k == CheckOf(d) ==> Holds(d, s))
  {
    hide Apply, Holds, PassesCheck, IsSide;
    BuildingStep(d, f);
    if d.Ports? {
      PortsStep(d, f, s, k);
    } else if d.Addr4? || d.Addr6? {
      AddrStep(d, f, s, k);
    } else {
      OtherStep(d, f, s, k);
    }
  }

  /** Adding a directive adds exactly its condition. */
  lemma ApplyMeaning(d: Directive, f: Filter, s: Socket)
    requires IsDirective(d) && Building(f) && IsSocket(s) && Apply(d, f).Some?
    ensures Building(Apply(d, f).value)
    ensures Passes(Apply(d, f).value, s) <==> Passes(f, s) && Holds(d, s)
  {
    hide Apply, VersionPasses, StatePasses, PortPasses, AddrPasses, Block6Has, InBlock;
    BuildingStep(d, f);
    CheckStep(d, f, s, OnVersion);
    CheckStep(d, f, s, OnState);
    CheckStep(d, f, s, OnPort);
    CheckStep(d, f, s, OnAddr);
  }

  // ---------------------------------------------------------------- a whole string

  lemma {:induction false} RunMeaning(toks: seq<string>, f: Filter, s: Socket)
    requires Building(f) && IsSocket(s) && Run(toks, f).Some?
    ensures Building(Run(toks, f).value)
    ensures Passes(Run(toks, f).value, s) <==> Passes(f, s) && forall tok | tok in toks :: Says(tok, s)
  {
    hide Says, Passes, Fresh, Apply, ParseToken;
    if toks != [] {
      var g := Step(toks[0], f).value;
      StepMeaning(toks[0], f, s);
      RunMeaning(toks[1..], g, s);
      assert forall tok :: tok in toks <==> tok == toks[0] || tok in toks[1..];
    }
  }

  lemma StepMeaning(tok: string, f: Filter, s: Socket)
    requires Building(f) && IsSocket(s) && Step(tok, f).Some?
    ensures Building(Step(tok, f).value)
    ensures Passes(Step(tok, f).value, s) <==> Passes(f, s) && Says(tok, s)
  {
    hide Says, Passes, Fresh, Apply, Holds, ParseToken, IsDirective;
    ParsedIsDirective(tok);
    TokenMeaning(tok, s);
    ApplyMeaning(ParseToken(tok).value, f, s);
  }

  lemma DefaultPassesAll(s: Socket)
    requires IsSocket(s)
    ensures Building(DEFAULT_FILTER) && Passes(DEFAULT_FILTER, s)
  {
  }

  /** A string that starts with NUL, or is empty, has no directives. */
  lemma NoTokens(input: string)
    requires input == "" || input[0] == NUL
    ensures Tokens(input) == []
  {
  }

  /** Meaning preservation: for every accepted string and every socket of the snapshot that the reader may see, the
      chain emits the socket exactly when every directive of the string, read on its own, holds of it. */
  lemma CompiledMeaning(input: string, gencnt: nat, s: Socket)
    requires Compile(input).Compiled? && IsSocket(s) && s.gencnt <= gencnt && s.visible
    ensures IsFilter(Compile(input).filter)
    ensures Judge(Compile(input).filter, gencnt, s) == Emit <==> forall tok | tok in Tokens(input) :: Says(tok, s)
  {
    hide Says, Tokens, StatePasses, VersionPasses, PortPasses, AddrPasses;
    DefaultPassesAll(s);
    if input == "" || input[0] == NUL {
      NoTokens(input);
    } else {
      RunMeaning(Tokens(input), DEFAULT_FILTER, s);
    }
  }

  /** A compiled filter is one the matcher can run on. */
  lemma CompiledIsFilter(input: string)
    requires Compile(input).Compiled?
    ensures IsFilter(Compile(input).filter)
  {
    hide Compile, Tokens, Judge;
    var zero := End(0, 0, seq(16, _ => 0));
    CompiledMeaning(input, 0, Socket(0, 0, true, false, false, None, zero, zero));
  }

  /** The filter of an accepted string. */
  function FilterOf(input: string): (f: Filter)
    requires Compile(input).Compiled?
    ensures IsFilter(f) && Compile(input) == Compiled(f)
  {
    CompiledIsFilter(input);
    Compile(input).filter
  }
}
