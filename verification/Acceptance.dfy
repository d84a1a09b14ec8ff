/**
 Which strings are accepted, in terms of their directives alone: every token is a directive, none clashes with an
 earlier one, and the version flags fit each other and the addresses.
 */
module Acceptance {
  import opened Text
  import opened Ipv4
  import opened Ipv6
  import opened Filter
  import opened Printing

  predicate IsAddr(d: Directive) { d.Addr4? || d.Addr6? }

  predicate HasPorts(ds: seq<Directive>, dir: Direction) { exists d | d in ds :: d.Ports? && d.dir == dir }

  predicate HasAddr(ds: seq<Directive>, dir: Direction) { exists d | d in ds :: IsAddr(d) && d.dir == dir }

  predicate HasInclude(ds: seq<Directive>) { exists d | d in ds :: d.Include? }

  predicate HasExclusion(ds: seq<Directive>) { exists d | d in ds :: d.Exclude? && d.states != [] }

  /** An IPv4 network other than 0.0.0.0 in that direction. */
  predicate HasNet4(ds: seq<Directive>, dir: Direction) {
    exists d | d in ds :: d.Addr4? && d.dir == dir && d.net4.addr != 0
  }

  predicate HasNet6(ds: seq<Directive>, dir: Direction) {
    exists d | d in ds :: d.Addr6? && d.dir == dir && d.net6.addr != Zeros(16)
  }

  /** The directive may not follow these: a second list of ports or second address for one direction, an `exclude` after
      `include_state`, or an `include_state` after another or after an `exclude` that names a state. */
  predicate Clashes(d: Directive, earlier: seq<Directive>) {
    match d
    case Ports(dir, _) => HasPorts(earlier, dir)
    case Addr4(dir, _) => HasAddr(earlier, dir)
    case Addr6(dir, _) => HasAddr(earlier, dir)
    case Exclude(_) => HasInclude(earlier)
    case Include(_) => HasInclude(earlier) || HasExclusion(earlier)
    case _ => false
  }

  predicate NoClash(ds: seq<Directive>) { forall j | 0 <= j < |ds| :: !Clashes(ds[j], ds[..j]) }

  /** Not both version flags, and no version flag with a non-zero network of the other family. */
  predicate VersionsFit(ds: seq<Directive>) {
    && !(Ipv4Only in ds && Ipv6Only in ds)
    && (Ipv6Only in ds ==> !HasNet4(ds, Local) && !HasNet4(ds, Remote))
    && (Ipv4Only in ds ==> !HasNet6(ds, Local) && !HasNet6(ds, Remote))
  }

  // ---------------------------------------------------------------- what the struct knows of the directives

  predicate SideKnows(ds: seq<Directive>, f: Filter, dir: Direction) {
    && (PortFlag(dir) in f.flags <==> HasPorts(ds, dir))
    && (AddrFlag(dir) in f.flags <==> HasAddr(ds, dir))
    && (SideOf(f, dir).addr4 != 0 <==> HasNet4(ds, dir))
    && (SideOf(f, dir).addr6 != Zeros(16) <==> HasNet6(ds, dir))
    && (HasNet4(ds, dir) || HasNet6(ds, dir) ==> HasAddr(ds, dir))
  }

  predicate StatesKnow(ds: seq<Directive>, f: Filter) {
    && (TSF_STATE_INCLUDE_MODE in f.flags <==> HasInclude(ds))
    && f.stateMask <= ALL_STATES
    && (f.stateMask == ALL_STATES <==> !HasInclude(ds) && !HasExclusion(ds))
  }

  predicate Knows(ds: seq<Directive>, f: Filter) {
    && SideKnows(ds, f, Local) && SideKnows(ds, f, Remote) && StatesKnow(ds, f)
    && (TSF_IPV4_ONLY in f.flags <==> Ipv4Only in ds)
    && (TSF_IPV6_ONLY in f.flags <==> Ipv6Only in ds)
  }

  lemma InSnoc(ds: seq<Directive>, d: Directive, x: Directive)
    ensures x in ds + [d] <==> x in ds || x == d
  {
  }

  lemma SideSnoc(ds: seq<Directive>, d: Directive, dir: Direction)
    ensures HasPorts(ds + [d], dir) <==> HasPorts(ds, dir) || (d.Ports? && d.dir == dir)
    ensures HasAddr(ds + [d], dir) <==> HasAddr(ds, dir) || (IsAddr(d) && d.dir == dir)
    ensures HasNet4(ds + [d], dir) <==> HasNet4(ds, dir) || (d.Addr4? && d.dir == dir && d.net4.addr != 0)
    ensures HasNet6(ds + [d], dir) <==> HasNet6(ds, dir) || (d.Addr6? && d.dir == dir && d.net6.addr != Zeros(16))
  {
    forall x: Directive ensures x in ds + [d] <==> x in ds || x == d { InSnoc(ds, d, x); }
    assert d in ds + [d];
  }

  lemma StatesSnoc(ds: seq<Directive>, d: Directive)
    ensures HasInclude(ds + [d]) <==> HasInclude(ds) || d.Include?
    ensures HasExclusion(ds + [d]) <==> HasExclusion(ds) || (d.Exclude? && d.states != [])
  {
    forall x: Directive ensures x in ds + [d] <==> x in ds || x == d { InSnoc(ds, d, x); }
    assert d in ds + [d];
  }

  lemma AppliesUnlessClash(ds: seq<Directive>, f: Filter, d: Directive)
    requires IsDirective(d) && Knows(ds, f)
    ensures Apply(d, f).Some? <==> !Clashes(d, ds)
  {
    hide HasPorts, HasAddr, HasInclude, HasExclusion, HasNet4, HasNet6, IsNet4, IsNet6, StateBits, Pad;
  }

  lemma SideStep(ds: seq<Directive>, f: Filter, d: Directive, dir: Direction)
    requires IsDirective(d) && Knows(ds, f) && Apply(d, f).Some?
    ensures SideKnows(ds + [d], Apply(d, f).value, dir)
  {
    hide HasPorts, HasAddr, HasInclude, HasExclusion, HasNet4, HasNet6, IsNet4, IsNet6, StateBits, StatesKnow, Pad;
    SideSnoc(ds, d, dir);
  }

  lemma StatesStepKnow(ds: seq<Directive>, f: Filter, d: Directive)
    requires IsDirective(d) && Knows(ds, f) && Apply(d, f).Some?
    ensures StatesKnow(ds + [d], Apply(d, f).value)
  {
    hide HasInclude, HasExclusion, SideKnows, IsNet4, IsNet6, Pad;
    StatesSnoc(ds, d);
    var g := Apply(d, f).value;
    match d
    case Exclude(states) =>
      if states != [] { assert states[0] in StateBits(states) && states[0] in ALL_STATES; }
      if states == [] { assert g.stateMask == f.stateMask; }
    case Include(states) => assert 11 in ALL_STATES && 11 !in StateBits(states);
    case _ => assert g.stateMask == f.stateMask;
  }

  lemma KnowsStep(ds: seq<Directive>, f: Filter, d: Directive)
    requires IsDirective(d) && Knows(ds, f) && Apply(d, f).Some?
    ensures Knows(ds + [d], Apply(d, f).value)
  {
    SideStep(ds, f, d, Local);
    SideStep(ds, f, d, Remote);
    StatesStepKnow(ds, f, d);
    hide SideKnows, StatesKnow, IsNet4, IsNet6, StateBits, Pad;
    InSnoc(ds, d, Ipv4Only);
    InSnoc(ds, d, Ipv6Only);
  }

  lemma DefaultKnows()
    ensures Knows([], DEFAULT_FILTER)
  {
  }

  predicate AreDirectives(ds: seq<Directive>) { forall i | 0 <= i < |ds| :: IsDirective(ds[i]) }

  /** The directives can be added one after the other exactly when none clashes with an earlier one. */
  lemma {:induction false} AppliesExactly(ds: seq<Directive>)
    requires AreDirectives(ds)
    ensures ApplyAll(ds, DEFAULT_FILTER).Some? <==> NoClash(ds)
    ensures NoClash(ds) ==> Knows(ds, ApplyAll(ds, DEFAULT_FILTER).value)
  {
    hide Knows, Apply, Clashes, IsDirective;
    if ds == [] {
      DefaultKnows();
    } else {
      var init, d := ds[..|ds| - 1], ds[|ds| - 1];
      assert ds == init + [d];
      AppliesExactly(init);
      ApplyAllAdd(init, [d], DEFAULT_FILTER);
      ClashSnoc(init, d);
      if NoClash(init) {
        var f := ApplyAll(init, DEFAULT_FILTER).value;
        AppliesUnlessClash(init, f, d);
        assert [d][1..] == [];
        assert ApplyAll([d], f) == Apply(d, f);
        if Apply(d, f).Some? { KnowsStep(init, f, d); }
      }
    }
  }

  lemma ClashSnoc(init: seq<Directive>, d: Directive)
    ensures NoClash(init + [d]) <==> NoClash(init) && !Clashes(d, init)
  {
    hide Clashes;
    var ds := init + [d];
    assert ds[|init|] == d && ds[..|init|] == init;
    forall j | 0 <= j < |init| ensures ds[j] == init[j] && ds[..j] == init[..j] {}
  }

  lemma CompatibleExactly(ds: seq<Directive>, f: Filter)
    requires Knows(ds, f)
    ensures Compatible(f) <==> VersionsFit(ds)
  {
    hide HasPorts, HasAddr, HasNet4, HasNet6, StatesKnow;
  }

  // ---------------------------------------------------------------- tokens and strings

  predicate AllParse(toks: seq<string>) { forall i | 0 <= i < |toks| :: ParseToken(toks[i]).Some? }

  function Parsed(toks: seq<string>): (ds: seq<Directive>)
    requires AllParse(toks)
    ensures |ds| == |toks| && forall i | 0 <= i < |toks| :: ParseToken(toks[i]) == Some(ds[i])
  {
    seq(|toks|, i requires 0 <= i < |toks| && ParseToken(toks[i]).Some? => ParseToken(toks[i]).value)
  }

  lemma ParsedAreDirectives(toks: seq<string>)
    requires AllParse(toks)
    ensures AreDirectives(Parsed(toks))
  {
    hide ParseToken, IsDirective;
    forall i | 0 <= i < |toks| ensures IsDirective(Parsed(toks)[i]) { ParsedIsDirective(toks[i]); }
  }

  lemma {:induction false} RunParsed(toks: seq<string>, f: Filter)
    requires AllParse(toks) && AreDirectives(Parsed(toks))
    ensures Run(toks, f) == ApplyAll(Parsed(toks), f)
    decreases |toks|
  {
    hide ParseToken, Apply, IsDirective;
    if toks != [] {
      assert Parsed(toks)[1..] == Parsed(toks[1..]);
      var g := Apply(Parsed(toks)[0], f);
      if g.Some? { RunParsed(toks[1..], g.value); }
    }
  }

  lemma {:induction false} RunNeedsParse(toks: seq<string>, f: Filter)
    requires Run(toks, f).Some?
    ensures AllParse(toks)
  {
    hide ParseToken, Apply, IsDirective;
    if toks != [] {
      RunNeedsParse(toks[1..], Step(toks[0], f).value);
      assert forall i | 1 <= i < |toks| :: toks[i] == toks[1..][i - 1];
    }
  }

  /** The tokens of a string are directives that fit together. */
  predicate Fits(toks: seq<string>) {
    AllParse(toks) && NoClash(Parsed(toks)) && VersionsFit(Parsed(toks))
  }

  lemma RunsExactly(toks: seq<string>)
    ensures Run(toks, DEFAULT_FILTER).Some? && Compatible(Run(toks, DEFAULT_FILTER).value) <==> Fits(toks)
  {
    hide ParseToken, Run, NoClash, VersionsFit, Knows, Compatible, IsDirective;
    if Run(toks, DEFAULT_FILTER).Some? { RunNeedsParse(toks, DEFAULT_FILTER); }
    if AllParse(toks) {
      var ds := Parsed(toks);
      ParsedAreDirectives(toks);
      RunParsed(toks, DEFAULT_FILTER);
      AppliesExactly(ds);
      if NoClash(ds) { CompatibleExactly(ds, ApplyAll(ds, DEFAULT_FILTER).value); }
    }
  }

  /** Acceptance in terms of the text alone: a string is accepted if and only if it is empty up to its first NUL, or it
      is short enough, printable, has at most sixteen tokens, and the tokens fit. */
  lemma AcceptedExactly(input: string)
    ensures Compile(input).Compiled? <==>
      || input == "" || input[0] == NUL
      || (|input| < 512 && Printable(input) && |Tokens(input)| <= 16 && Fits(Tokens(input)))
    ensures Compile(input) == Rejected(ENAMETOOLONG) <==> |input| >= 512 && input[0] != NUL
  {
    hide Printable, Tokens, Run, Compatible, Fits;
    RunsExactly(Tokens(input));
  }
}
