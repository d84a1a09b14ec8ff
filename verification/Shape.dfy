/**
 The shape of every compiled filter, and where the matcher departs from the documented meaning of a prefix.
 */
module Shape {
  import opened Text
  import opened Bits
  import opened Cidr
  import opened Ipv4
  import opened Ipv6
  import opened Filter
  import opened Meaning

  /** A port array: distinct ports in 1..65535, then unused slots; empty exactly when the direction's flag is clear. */
  ghost predicate PortsShaped(ports: seq<nat>, flagged: bool) {
    exists ps: seq<nat> ::
      && |ps| <= 8 && ports == Pad(ps) && Distinct(ps)
      && (forall i | 0 <= i < |ps| :: 1 <= ps[i] <= 65535)
      && (flagged <==> ps != [])
  }

  predicate NoAddr4(s: Side) { s.addr4 == 0 && s.mask4 == 0 }

  predicate NoAddr6(s: Side) { s.addr6 == Zeros(16) && s.prefix6 == 0 }

  /** At most one family: an IPv4 network with a contiguous mask and zero host bits, or an IPv6 network. */
  ghost predicate AddrShaped(s: Side, flagged: bool) {
    if flagged then
      || (NoAddr6(s) && exists n: Net4 :: IsNet4(n) && s.addr4 == n.addr && s.mask4 == Mask4(n.prefix))
      || (NoAddr4(s) && IsNet6(Net6(s.addr6, s.prefix6)))
    else NoAddr4(s) && NoAddr6(s)
  }

  /** Either an include list, not empty, or all sixteen bits but those of the excluded states. */
  predicate StatesShaped(f: Filter) {
    if TSF_STATE_INCLUDE_MODE in f.flags then f.stateMask != {} && forall s | s in f.stateMask :: s <= 10
    else f.stateMask <= ALL_STATES && forall s | s in ALL_STATES - f.stateMask :: s <= 10
  }

  /** The flags above the exclude flags, which the parser never sets: bits 12 to 18. */
  const MODE_FLAGS: set<nat> := set b: nat | 12 <= b <= 18

  ghost predicate Shaped(f: Filter) {
    && f.flags <= MODE_FLAGS
    && f.version == TSF_VERSION && f.format <= 1
    && f.fieldMask != {} && f.fieldMask <= TSR_FIELDS_ALL
    && StatesShaped(f)
    && PortsShaped(f.local.ports, TSF_LOCAL_PORT_MATCH in f.flags)
    && PortsShaped(f.remote.ports, TSF_REMOTE_PORT_MATCH in f.flags)
    && AddrShaped(f.local, TSF_LOCAL_ADDR_MATCH in f.flags)
    && AddrShaped(f.remote, TSF_REMOTE_ADDR_MATCH in f.flags)
  }

  lemma PortsStay(ports: seq<nat>, ps: seq<nat>)
    requires 1 <= |ps| <= 8 && Distinct(ps) && (forall i | 0 <= i < |ps| :: 1 <= ps[i] <= 65535)
    requires ports == Pad(ps)
    ensures PortsShaped(ports, true)
  {
  }

  lemma AddrStays(s: Side, n: Net4)
    requires NoAddr6(s) && IsNet4(n) && s.addr4 == n.addr && s.mask4 == Mask4(n.prefix)
    ensures AddrShaped(s, true)
  {
  }

  lemma StatesStep(d: Directive, f: Filter)
    requires IsDirective(d) && StatesShaped(f) && Apply(d, f).Some?
    ensures StatesShaped(Apply(d, f).value)
  {
    hide Pad, Mask4, IsNet4, IsNet6;
    var g := Apply(d, f).value;
    match d
    case Include(states) => assert states[0] in StateBits(states);
    case Exclude(states) =>
      forall s | s in ALL_STATES - g.stateMask ensures s <= 10 {
        if s !in StateBits(states) { assert s in ALL_STATES - f.stateMask; }
      }
    case _ => assert g.stateMask == f.stateMask;
  }

  lemma ApplyShaped(d: Directive, f: Filter)
    requires IsDirective(d) && Shaped(f) && Apply(d, f).Some?
    ensures Shaped(Apply(d, f).value)
  {
    hide PortsShaped, StatesShaped, IsNet4, IsNet6, Mask4, StateBits;
    StatesStep(d, f);
    var g := Apply(d, f).value;
    if d.Ports? { PortsStay(SideOf(g, d.dir).ports, d.ports); }
    if d.Addr4? { AddrStays(SideOf(g, d.dir), d.net4); }
  }

  lemma {:induction false} RunShaped(toks: seq<string>, f: Filter)
    requires Shaped(f) && Run(toks, f).Some?
    ensures Shaped(Run(toks, f).value)
  {
    hide Shaped, Apply, ParseToken, IsDirective;
    if toks != [] {
      ParsedIsDirective(toks[0]);
      ApplyShaped(ParseToken(toks[0]).value, f);
      RunShaped(toks[1..], Step(toks[0], f).value);
    }
  }

  lemma DefaultShaped()
    ensures Shaped(DEFAULT_FILTER)
  {
    assert EMPTY_SIDE.ports == Pad([]);
    assert PortsShaped(EMPTY_SIDE.ports, false);
    assert 0 in DEFAULT_FILTER.fieldMask;
  }

  /** Every accepted string compiles to a well-shaped filter that does not ask for both IP versions. */
  lemma CompiledShape(input: string)
    requires Compile(input).Compiled?
    ensures Shaped(Compile(input).filter) && Compatible(Compile(input).filter)
  {
    DefaultShaped();
    hide Shaped, Tokens;
    if input != "" && input[0] != NUL { RunShaped(Tokens(input), DEFAULT_FILTER); }
  }

  /** A tab is a separator by the documentation, but no accepted string of directives contains one. */
  lemma TabsRejected(input: string)
    requires input != "" && input[0] != NUL && '\t' in input
    ensures Compile(input).Rejected?
  {
    var i :| 0 <= i < |input| && input[i] == '\t';
    assert '\t' < ' ' && !Printable(input);
  }

  /** An IPv6 filter means its CIDR block exactly when the network is not zero or the prefix length is 0: the zero
      network with a longer prefix, such as the single address `::`, selects every address instead. */
  lemma BlockUnlessZero(n: Net6)
    requires IsNet6(n)
    ensures (forall x: seq<nat> | IsAddr6(x) ::
               Block6Has(n, x) <==> n.prefix == 0 || InBlock(Value(x), Value(n.addr), 128 - n.prefix))
       <==> Value(n.addr) != 0 || n.prefix == 0
  {
    if Value(n.addr) == 0 && n.prefix > 0 {
      var top := [128, 0, 0, 0, 0, 0, 0, 0, 0, 0, 0, 0, 0, 0, 0, 0];
      assert IsAddr6(top);
      TopOutside(top, 128 - n.prefix);
      assert Block6Has(n, top) && !InBlock(Value(top), Value(n.addr), 128 - n.prefix);
    }
  }

  lemma AtLeastHigh(x: nat, k: nat, j: nat)
    requires Shr(x, k) >= Pow2(j)
    ensures x >= Pow2(j + k)
  {
    HighAndLow(x, k);
    Pow2Add(j, k);
    MulMono(Pow2(j), Shr(x, k), Pow2(k));
  }

  lemma TopByte(top: seq<nat>, k: nat)
    requires IsAddr6(top) && top[0] == 128 && k == 120
    ensures Shr(Value(top), k) == 128
  {
    ShrBytes(top, 1);
    assert top[..1] == [128] && [128][..0] == [];
  }

  lemma TopOutside(top: seq<nat>, host: nat)
    requires IsAddr6(top) && top[0] == 128 && host <= 127
    ensures !InBlock(Value(top), 0, host)
  {
    hide Value, Shr, Pow2;
    var k := 120;
    TopByte(top, k);
    SeventhPower();
    AtLeastHigh(Value(top), k, 7);
    Pow2Mono(host, 7 + k);
  }

  lemma SeventhPower()
    ensures Pow2(7) == 128
  {
    assert Pow2(3) == 8;
  }
}
