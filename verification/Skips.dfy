/**
 Why a socket is skipped: the check that stops it, and so what each counter of a scan counts, in terms of the tokens
 of the filter string.
 */
module Skips {
  import opened Text
  import opened Filter
  import opened Matching
  import opened Meaning
  import opened Scan

  /** The check that the directive with that key belongs to. */
  function CheckFor(key: string): Check {
    if key == "ipv4_only" || key == "ipv6_only" then OnVersion
    else if key == "exclude" || key == "include_state" then OnState
    else if key == "local_port" || key == "remote_port" then OnPort
    else if key == "local_addr" || key == "remote_addr" then OnAddr
    else Never
  }

  /** Every token of that check, read on its own, says so of the socket. */
  ghost predicate AllSay(toks: seq<string>, k: Check, s: Socket) {
    forall tok | tok in toks && CheckFor(KeyOf(tok)) == k :: Says(tok, s)
  }

  /** The verdict on a socket by the tokens alone: versions, states, visibility, ports and addresses, in this order. */
  ghost function Reason(toks: seq<string>, gencnt: nat, s: Socket): Verdict {
    if s.gencnt > gencnt then SkipGencnt
    else if !AllSay(toks, OnVersion, s) then SkipIpver
    else if !AllSay(toks, OnState, s) then SkipState
    else if !s.visible then SkipCred
    else if !AllSay(toks, OnPort, s) then SkipPort
    else if !AllSay(toks, OnAddr, s) then SkipAddr
    else Emit
  }

  lemma KeyDecidesCheck(tok: string)
    requires ParseToken(tok).Some?
    ensures CheckOf(ParseToken(tok).value) == CheckFor(KeyOf(tok))
  {
    hide Lower, Items, FieldBits, KeyOf, ReadStates, ReadPorts;
  }

  lemma StepCheck(tok: string, f: Filter, s: Socket, k: Check)
    requires Building(f) && IsSocket(s) && Step(tok, f).Some?
    ensures Building(Step(tok, f).value)
    ensures PassesCheck(k, Step(tok, f).value, s) <==>
      PassesCheck(k, f, s) && (CheckFor(KeyOf(tok)) == k ==> Says(tok, s))
  {
    hide Says, PassesCheck, Fresh, Apply, Holds, ParseToken, IsDirective, CheckOf, CheckFor, KeyOf;
    ParsedIsDirective(tok);
    TokenMeaning(tok, s);
    KeyDecidesCheck(tok);
    CheckStep(ParseToken(tok).value, f, s, k);
  }

  lemma {:induction false} RunCheck(toks: seq<string>, f: Filter, s: Socket, k: Check)
    requires Building(f) && IsSocket(s) && Run(toks, f).Some?
    ensures Building(Run(toks, f).value)
    ensures PassesCheck(k, Run(toks, f).value, s) <==> PassesCheck(k, f, s) && AllSay(toks, k, s)
  {
    hide Says, PassesCheck, Fresh, Step, CheckFor, KeyOf;
    if toks != [] {
      StepCheck(toks[0], f, s, k);
      RunCheck(toks[1..], Step(toks[0], f).value, s, k);
      assert forall tok :: tok in toks <==> tok == toks[0] || tok in toks[1..];
    }
  }

  /** The filter of a string passes each check exactly when the tokens of that check say so. */
  lemma CheckMeaning(input: string, s: Socket, k: Check)
    requires Compile(input).Compiled? && IsSocket(s)
    ensures PassesCheck(k, FilterOf(input), s) <==> AllSay(Tokens(input), k, s)
  {
    hide Says, Tokens, StatePasses, VersionPasses, PortPasses, AddrPasses, KeyOf, CheckFor;
    DefaultPassesAll(s);
    if input == "" || input[0] == NUL {
      NoTokens(input);
    } else {
      RunCheck(Tokens(input), DEFAULT_FILTER, s, k);
    }
  }

  /** The verdict of the chain is the reason that the tokens give. */
  lemma VerdictMeaning(input: string, gencnt: nat, s: Socket)
    requires Compile(input).Compiled? && IsSocket(s)
    ensures Judge(FilterOf(input), gencnt, s) == Reason(Tokens(input), gencnt, s)
  {
    hide Compile, Tokens, AllSay, StatePasses, VersionPasses, PortPasses, AddrPasses, FilterOf;
    CheckMeaning(input, s, OnVersion);
    CheckMeaning(input, s, OnState);
    CheckMeaning(input, s, OnPort);
    CheckMeaning(input, s, OnAddr);
  }

  // ---------------------------------------------------------------- the counters of a scan

  /** The positions, below `n`, of the sockets with that reason. */
  ghost function SkippedFor(toks: seq<string>, gencnt: nat, ss: seq<Socket>, n: nat, v: Verdict): set<nat>
    requires n <= |ss|
  {
    set i: nat | i < n && Reason(toks, gencnt, ss[i]) == v
  }

  lemma OneMore(toks: seq<string>, gencnt: nat, ss: seq<Socket>, n: nat, v: Verdict)
    requires n < |ss|
    ensures |SkippedFor(toks, gencnt, ss, n + 1, v)| ==
      |SkippedFor(toks, gencnt, ss, n, v)| + (if Reason(toks, gencnt, ss[n]) == v then 1 else 0)
  {
    hide Reason;
    var here := if Reason(toks, gencnt, ss[n]) == v then {n} else {};
    assert SkippedFor(toks, gencnt, ss, n + 1, v) == SkippedFor(toks, gencnt, ss, n, v) + here;
  }

  lemma {:induction false} CountMeaning(input: string, gencnt: nat, ss: seq<Socket>, n: nat, v: Verdict)
    requires Compile(input).Compiled? && AreSockets(ss) && n <= |ss|
    ensures Count(FilterOf(input), gencnt, ss[..n], v) == |SkippedFor(Tokens(input), gencnt, ss, n, v)|
  {
    hide Compile, Tokens, FilterOf, Judge, Reason, IsSocket, IsFilter;
    if n == 0 {
      assert SkippedFor(Tokens(input), gencnt, ss, 0, v) == {};
    } else {
      hide SkippedFor;
      CountMeaning(input, gencnt, ss, n - 1, v);
      VerdictMeaning(input, gencnt, ss[n - 1]);
      OneMore(Tokens(input), gencnt, ss, n - 1, v);
      assert ss[..n][..n - 1] == ss[..n - 1];
    }
  }

  /** What every skip counter of a scan counts: the sockets it judged that pass the earlier checks of the string and
      fail this one. */
  lemma CountersMeaning(r: Result, input: string, gencnt: nat, ss: seq<Socket>, resid: nat,
                        deadline: Option<int>, w: World)
    requires Compile(input).Compiled? && AreSockets(ss) && IsWorld(w)
    requires IsScan(r, FilterOf(input), gencnt, ss, resid, deadline, w)
    ensures r.judged <= |ss|
    ensures var toks, c, n := Tokens(input), r.batch, r.judged;
      && c.gencnt == |SkippedFor(toks, gencnt, ss, n, SkipGencnt)|
      && c.ipver == |SkippedFor(toks, gencnt, ss, n, SkipIpver)|
      && c.state == |SkippedFor(toks, gencnt, ss, n, SkipState)|
      && c.cred == |SkippedFor(toks, gencnt, ss, n, SkipCred)|
      && c.port == |SkippedFor(toks, gencnt, ss, n, SkipPort)|
      && c.addr == |SkippedFor(toks, gencnt, ss, n, SkipAddr)|
  {
    hide Compile, Tokens, FilterOf, Judge, SkippedFor, IsWorld, Records, Selected, Count;
    CountMeaning(input, gencnt, ss, r.judged, SkipGencnt);
    CountMeaning(input, gencnt, ss, r.judged, SkipIpver);
    CountMeaning(input, gencnt, ss, r.judged, SkipState);
    CountMeaning(input, gencnt, ss, r.judged, SkipCred);
    CountMeaning(input, gencnt, ss, r.judged, SkipPort);
    CountMeaning(input, gencnt, ss, r.judged, SkipAddr);
  }
}
