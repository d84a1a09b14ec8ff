/**
 Case invariance: for every input, replacing `A`..`Z` by `a`..`z` changes neither the outcome nor the filter.

 Keys, state names, formats and field groups are lower-cased by the parser, hexadecimal digits have a value in
 either case, and the texts of ports, prefix lengths and IPv4 addresses have no letters at all.
 */
module CaseFolding {
  import opened Text
  import opened Numbers
  import opened Ipv4
  import opened Ipv6
  import opened Filter

  predicate IsLetter(c: char) { 'A' <= c <= 'Z' || 'a' <= c <= 'z' }

  predicate Caseless(delims: set<char>) { forall c | c in delims :: !IsLetter(c) }

  function LowerAll(items: seq<string>): (r: seq<string>)
    ensures |r| == |items| && forall i | 0 <= i < |items| :: r[i] == Lower(items[i])
  {
    seq(|items|, i requires 0 <= i < |items| => Lower(items[i]))
  }

  lemma LowerTwice(s: string)
    ensures Lower(Lower(s)) == Lower(s)
  {
  }

  lemma LowerTake(s: string, i: nat)
    requires i <= |s|
    ensures Lower(s)[..i] == Lower(s[..i])
  {
  }

  lemma LowerDrop(s: string, i: nat)
    requires i <= |s|
    ensures Lower(s)[i..] == Lower(s[i..])
  {
  }

  lemma FindLower(s: string, delims: set<char>)
    requires Caseless(delims)
    ensures Find(Lower(s), delims) == Find(s, delims)
  {
    var i := Find(s, delims);
    forall k | 0 <= k < |s| ensures Lower(s)[k] in delims <==> s[k] in delims { LowerIn(s[k], delims); }
    FindUnique(Lower(s), delims, i);
  }

  lemma LowerIn(c: char, delims: set<char>)
    requires Caseless(delims)
    ensures ToLower(c) in delims <==> c in delims
  {
    if ToLower(c) != c { assert IsLetter(c) && IsLetter(ToLower(c)); }
  }

  lemma LowerAllAdd(a: seq<string>, b: seq<string>)
    ensures LowerAll(a + b) == LowerAll(a) + LowerAll(b)
  {
    hide Lower;
  }

  lemma LowerPiece(w: string)
    ensures LowerAll(Piece(w)) == Piece(Lower(w))
  {
  }

  lemma {:induction false} ItemsLower(s: string, delims: set<char>)
    requires Caseless(delims)
    ensures Items(Lower(s), delims) == LowerAll(Items(s, delims))
    decreases |s|
  {
    hide Caseless, Lower, LowerAll, Find, Items, Piece;
    var i := Find(s, delims);
    FindLower(s, delims);
    LowerTake(s, i);
    FirstPiece(s, delims);
    FirstPiece(Lower(s), delims);
    LowerPiece(s[..i]);
    if i < |s| {
      LowerDrop(s, i + 1);
      ItemsLower(s[i + 1..], delims);
      LowerAllAdd(Piece(s[..i]), Items(s[i + 1..], delims));
    } else {
      AddEmpty(Piece(s[..i]));
      AddEmpty(Piece(Lower(s[..i])));
    }
  }

  lemma {:induction false} UntilLower(s: string)
    ensures Until(Lower(s)) == Lower(Until(s))
  {
    if s != "" && s[0] != NUL {
      UntilLower(s[1..]);
      LowerDrop(s, 1);
    }
  }

  // ---------------------------------------------------------------- texts without letters

  predicate LetterFree(s: string) { forall c | c in s :: !IsLetter(c) }

  lemma LetterFreeLower(s: string)
    ensures LetterFree(s) ==> Lower(s) == s
    ensures LetterFree(Lower(s)) ==> Lower(s) == s
  {
    if LetterFree(s) || LetterFree(Lower(s)) {
      forall i | 0 <= i < |s| ensures ToLower(s[i]) == s[i] { assert s[i] in s && Lower(s)[i] in Lower(s); }
    }
  }

  lemma PortLower(s: string)
    ensures PortOf(Lower(s)) == PortOf(s)
  {
    LowerDigits(s);
  }

  lemma NumberLower(s: string, max: nat)
    ensures NumberUpTo(Lower(s), max) == NumberUpTo(s, max)
  {
    LowerDigits(s);
  }

  lemma WrittenV4(s: string, n: Net4)
    requires WritesV4(s, n)
    ensures LetterFree(s)
  {
    forall c | c in s ensures !IsLetter(c) {
      if IsLetter(c) {
        DottedAvoids(n.addr, c);
        DecimalHasOnlyDigits(n.prefix, c);
      }
    }
  }

  lemma V4Lower(s: string)
    ensures ParseV4(Lower(s)) == ParseV4(s)
  {
    hide ParseV4, WritesV4;
    LetterFreeLower(s);
    if ParseV4(s).Some? {
      V4Exact(s, ParseV4(s).value);
      WrittenV4(s, ParseV4(s).value);
    }
    if ParseV4(Lower(s)).Some? {
      V4Exact(Lower(s), ParseV4(Lower(s)).value);
      WrittenV4(Lower(s), ParseV4(Lower(s)).value);
    }
  }

  // ---------------------------------------------------------------- IPv6

  lemma HexLower(c: char)
    ensures IsHex(ToLower(c)) <==> IsHex(c)
    ensures IsHex(c) ==> HexDigit(ToLower(c)) == HexDigit(c)
  {
  }

  lemma {:induction false} HexValLower(s: string)
    ensures AllHex(Lower(s)) <==> AllHex(s)
    ensures AllHex(s) ==> HexVal(Lower(s)) == HexVal(s)
  {
    assert AllHex(Lower(s)) <==> AllHex(s) by {
      forall i | 0 <= i < |s| ensures IsHex(Lower(s)[i]) <==> IsHex(s[i]) { HexLower(s[i]); }
    }
    if s != "" && AllHex(s) {
      LowerTake(s, |s| - 1);
      HexLower(s[|s| - 1]);
      HexValLower(s[..|s| - 1]);
    }
  }

  lemma {:induction false} ScanLower(s: string, groups: seq<nat>, gap: Option<nat>)
    ensures Scan(Lower(s), groups, gap) == Scan(s, groups, gap)
    decreases |s|
  {
    hide HexVal, AllHex, Find;
    if s == "" || |groups| >= 8 {
    } else if |s| >= 2 && s[0] == ':' && s[1] == ':' {
      LowerDrop(s, 2);
      if gap.None? { ScanLower(s[2..], groups, Some(|groups|)); }
    } else if s[0] == ':' && groups == [] && gap.None? {
    } else {
      var rest := if s[0] == ':' then s[1..] else s;
      LowerDrop(s, 1);
      FindLower(rest, {':', '/'});
      var k := RunLength(rest);
      LowerTake(rest, k);
      LowerDrop(rest, k);
      HexValLower(rest[..k]);
      if IsGroup(rest[..k]) { ScanLower(rest[k..], groups + [HexVal(rest[..k])], gap); }
    }
  }

  lemma PartsLower(s: string, max: nat)
    ensures AddrPart(Lower(s)) == Lower(AddrPart(s)) && PrefixPart(Lower(s), max) == PrefixPart(s, max)
  {
    var i := Find(s, {'/'});
    FindLower(s, {'/'});
    LowerTake(s, i);
    if i < |s| {
      LowerDrop(s, i + 1);
      NumberLower(s[i + 1..], max);
    }
  }

  lemma V6Lower(s: string)
    ensures ParseV6(Lower(s)) == ParseV6(s)
  {
    hide Scan, PrefixPart;
    FindLower(s, {'/'});
    PartsLower(s, 128);
    ScanLower(AddrPart(s), [], None);
  }

  lemma AddrLower(dir: Direction, value: string)
    ensures ReadAddr(dir, Lower(value)) == ReadAddr(dir, value)
  {
    hide ParseV4, ParseV6;
    ColonLower(value);
    if ':' in value { V6Lower(value); } else { V4Lower(value); }
  }

  lemma ColonLower(s: string)
    ensures ':' in Lower(s) <==> ':' in s
  {
    FindLower(s, {':'});
    assert ':' in s <==> Find(s, {':'}) < |s|;
    assert ':' in Lower(s) <==> Find(Lower(s), {':'}) < |s|;
  }

  // ---------------------------------------------------------------- lists and whole strings

  lemma {:induction false} ReadAllLower(items: seq<string>, read: string -> Option<nat>)
    requires forall s: string :: read(Lower(s)) == read(s)
    ensures ReadAll(LowerAll(items), read) == ReadAll(items, read)
  {
    hide Lower;
    if items != [] {
      ReadAllLower(items[..|items| - 1], read);
      assert LowerAll(items)[..|items| - 1] == LowerAll(items[..|items| - 1]);
    }
  }

  lemma {:induction false} FieldBitsLower(items: seq<string>)
    ensures FieldBits(LowerAll(items)) == FieldBits(items)
  {
    hide Lower, Lookup;
    if items != [] {
      FieldBitsLower(items[..|items| - 1]);
      assert LowerAll(items)[..|items| - 1] == LowerAll(items[..|items| - 1]);
      LowerTwice(items[|items| - 1]);
    }
  }

  lemma KeyValueLower(key: string, value: string)
    ensures ReadKeyValue(key, Lower(value)) == ReadKeyValue(key, value)
  {
    hide Lower, Items, ReadAll, FieldBits, ReadAddr, Lookup, PortOf;
    ItemsLower(value, {','});
    var items := Items(value, {','});
    if key == "exclude" || key == "include_state" {
      forall s: string ensures StateOf(Lower(s)) == StateOf(s) { LowerTwice(s); }
      ReadAllLower(items, StateOf);
    } else if key == "local_port" || key == "remote_port" {
      forall s: string ensures PortOf(Lower(s)) == PortOf(s) { PortLower(s); }
      ReadAllLower(items, PortOf);
    } else if key == "local_addr" || key == "remote_addr" {
      AddrLower(if key == "local_addr" then Local else Remote, value);
    } else if key == "format" {
      LowerTwice(value);
    } else if key == "fields" {
      FieldBitsLower(items);
    }
  }

  lemma TokenLower(tok: string)
    ensures ParseToken(Lower(tok)) == ParseToken(tok)
  {
    hide Lower, Find, ReadKeyValue;
    var i := Find(tok, {'='});
    FindLower(tok, {'='});
    LowerTake(tok, i);
    LowerTwice(tok[..i]);
    if i < |tok| {
      LowerDrop(tok, i + 1);
      KeyValueLower(KeyOf(tok), ValueOf(tok));
    }
  }

  lemma {:induction false} RunLower(toks: seq<string>, f: Filter)
    ensures Run(LowerAll(toks), f) == Run(toks, f)
    decreases |toks|
  {
    hide Lower, ParseToken, Apply, IsDirective;
    if toks != [] {
      TokenLower(toks[0]);
      assert LowerAll(toks)[1..] == LowerAll(toks[1..]);
      if Step(toks[0], f).Some? { RunLower(toks[1..], Step(toks[0], f).value); }
    }
  }

  lemma PrintableLower(s: string)
    ensures Printable(Lower(s)) <==> Printable(s)
  {
    if Printable(Lower(s)) {
      forall i | 0 <= i < |s| ensures s[i] == NUL || ' ' <= s[i] <= '~' {
        assert Lower(s)[i] == NUL || ' ' <= Lower(s)[i] <= '~';
      }
    }
  }

  /** Case invariance of the whole parser, for every input. */
  lemma CaseInvariant(input: string)
    ensures Compile(Lower(input)) == Compile(input)
  {
    hide Items, Run, Printable, Compatible;
    PrintableLower(input);
    UntilLower(input);
    ItemsLower(Until(input), BLANKS);
    RunLower(Tokens(input), DEFAULT_FILTER);
    if input != "" { assert Lower(input)[0] == NUL <==> input[0] == NUL; }
  }
}
