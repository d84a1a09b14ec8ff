/**
 What the words of a filter string stand for: the names of the TCP states, and the two settings that select no
 sockets, `format` and `fields`, of which the last directive wins.
 */
module Settings {
  import opened Text
  import opened Ipv4
  import opened Ipv6
  import opened Filter

  /** The last token with that key. */
  function Last(toks: seq<string>, key: string): (r: Option<string>)
    ensures r.None? ==> forall i | 0 <= i < |toks| :: KeyOf(toks[i]) != key
    ensures r.Some? ==> KeyOf(r.value) == key && exists i | 0 <= i < |toks| ::
      toks[i] == r.value && forall j | i < j < |toks| :: KeyOf(toks[j]) != key
  {
    if toks == [] then None
    else
      var r := Last(toks[1..], key);
      assert forall i | 0 < i < |toks| :: toks[i] == toks[1..][i - 1];
      if r.Some? then
        var k :| 0 <= k < |toks| - 1 && toks[1..][k] == r.value
          && forall j | k < j < |toks| - 1 :: KeyOf(toks[1..][j]) != key;
        assert toks[k + 1] == r.value;
        r
      else if KeyOf(toks[0]) == key then Some(toks[0])
      else None
  }

  /** What a `format` value stands for: 1 is the full format, 0 the compact one. */
  function FormatNumber(value: string): nat { if Lower(value) == "full" then 1 else 0 }

  /** The field bits that a group name stands for. */
  predicate NamesField(name: string, b: nat) {
    || (b == 0 && name == "identity")
    || (b == 1 && name == "state")
    || (b == 2 && name == "congestion")
    || (b == 3 && name == "rtt")
    || (b == 4 && name == "sequences")
    || (b == 5 && name == "counters")
    || (b == 6 && name == "timers")
    || (b == 7 && name == "buffers")
    || (b == 8 && name == "ecn")
    || (b == 9 && name == "names")
    || (b <= 9 && name == "all")
    || (b in {0, 1, 2, 3, 7} && name == "default")
  }

  /** Some item of the list names the field. */
  predicate ListNames(value: string, b: nat) {
    exists i | 0 <= i < |Items(value, {','})| :: NamesField(Lower(Items(value, {','})[i]), b)
  }

  // ---------------------------------------------------------------- keys and values

  /** The key of a token is what stands before its first equals sign, in lower case, and the value is the rest. */
  lemma KeysAndValues(key: string, value: string)
    requires '=' !in key
    ensures KeyOf(key) == Lower(key) && !HasValue(key)
    ensures var tok := key + "=" + value; KeyOf(tok) == Lower(key) && HasValue(tok) && ValueOf(tok) == value
  {
    hide Find, Lower;
    FindAfter(key, '=', value);
    WholeSlice(key);
    assert key + "=" + value == key + ['='] + value;
  }

  // ---------------------------------------------------------------- state names

  /** The name, in lower case, stands for the TCP state with that number. */
  predicate NamesState(name: string, n: nat) {
    || (n == 0 && name == "closed")
    || (n == 1 && name == "listen")
    || (n == 2 && name == "syn_sent")
    || (n == 3 && (name == "syn_received" || name == "syn_rcvd"))
    || (n == 4 && name == "established")
    || (n == 5 && (name == "close_wait" || name == "closewait"))
    || (n == 6 && name == "fin_wait_1")
    || (n == 7 && name == "closing")
    || (n == 8 && name == "last_ack")
    || (n == 9 && name == "fin_wait_2")
    || (n == 10 && (name == "time_wait" || name == "timewait"))
  }

  /** Length, first and last character tell the states apart. */
  predicate Marks(len: nat, first: char, last: char, n: nat) {
    || (n == 0 && len == 6 && last == 'd')
    || (n == 1 && last == 'n')
    || (n == 2 && first == 's' && last == 't')
    || (n == 3 && (len == 12 || len == 8) && last == 'd')
    || (n == 4 && len == 11 && last == 'd')
    || (n == 5 && first == 'c' && last == 't')
    || (n == 6 && last == '1')
    || (n == 7 && last == 'g')
    || (n == 8 && last == 'k')
    || (n == 9 && last == '2')
    || (n == 10 && first == 't' && last == 't')
  }

  lemma NameMarked(name: string, n: nat)
    requires NamesState(name, n)
    ensures name != "" && Marks(|name|, name[0], name[|name| - 1], n)
  {
  }

  lemma MarksDecide(len: nat, first: char, last: char, n: nat, m: nat)
    requires Marks(len, first, last, n) && Marks(len, first, last, m)
    ensures n == m
  {
  }

  lemma {:induction false} Listed<T>(table: seq<(string, T)>, i: nat)
    requires i < |table|
    ensures Lookup(table, table[i].0).Some?
  {
    if i > 0 { Listed(table[1..], i - 1); }
  }

  lemma StateEntry(i: nat)
    requires i < |STATE_NAMES|
    ensures NamesState(STATE_NAMES[i].0, STATE_NAMES[i].1)
  {
  }

  /** Every name of a state is in the table. */
  lemma StateListed(name: string, n: nat)
    requires NamesState(name, n)
    ensures exists i | 0 <= i < |STATE_NAMES| :: STATE_NAMES[i].0 == name
  {
    var i := if n <= 10 && STATE_NAMES[n].0 == name then n else if n == 10 then 11 else if n == 5 then 12 else 13;
    assert STATE_NAMES[i].0 == name;
  }

  /** What every state name means: the eleven states by their numbers, three of them under two names, in any case, and
      nothing else. */
  lemma StatesExactly(name: string, n: nat)
    ensures StateOf(name) == Some(n) <==> NamesState(Lower(name), n)
  {
    hide Lookup, NamesState, Marks, Lower;
    var low := Lower(name);
    LookupIn(STATE_NAMES, low);
    if StateOf(name).Some? {
      var m := StateOf(name).value;
      var i :| 0 <= i < |STATE_NAMES| && STATE_NAMES[i] == (low, m);
      StateEntry(i);
      if NamesState(low, n) {
        NameMarked(low, n);
        NameMarked(low, m);
        MarksDecide(|low|, low[0], low[|low| - 1], n, m);
      }
    } else if NamesState(low, n) {
      StateListed(low, n);
      var i :| 0 <= i < |STATE_NAMES| && STATE_NAMES[i].0 == low;
      Listed(STATE_NAMES, i);
    }
  }

  // ---------------------------------------------------------------- one token

  lemma {:induction false} GroupNames(name: string, b: nat)
    requires Lookup(FIELD_GROUPS, name).Some?
    ensures b in Lookup(FIELD_GROUPS, name).value <==> NamesField(name, b)
  {
    LookupIn(FIELD_GROUPS, name);
    hide Lookup;
    var i :| 0 <= i < |FIELD_GROUPS| && FIELD_GROUPS[i] == (name, Lookup(FIELD_GROUPS, name).value);
    GroupEntry(i, b);
  }

  lemma GroupEntry(i: nat, b: nat)
    requires i < |FIELD_GROUPS|
    ensures b in FIELD_GROUPS[i].1 <==> NamesField(FIELD_GROUPS[i].0, b)
  {
    if i < 6 { EarlyEntry(i, b); } else { LateEntry(i, b); }
  }

  lemma EarlyEntry(i: nat, b: nat)
    requires i < 6
    ensures b in FIELD_GROUPS[i].1 <==> NamesField(FIELD_GROUPS[i].0, b)
  {
  }

  lemma LateEntry(i: nat, b: nat)
    requires 6 <= i < 12
    ensures b in FIELD_GROUPS[i].1 <==> NamesField(FIELD_GROUPS[i].0, b)
  {
  }

  lemma {:induction false} BitsAreNamed(items: seq<string>, b: nat)
    requires FieldBits(items).Some?
    ensures b in FieldBits(items).value <==> exists i | 0 <= i < |items| :: NamesField(Lower(items[i]), b)
  {
    hide NamesField, Lookup, Lower;
    if items != [] {
      var init, last := items[..|items| - 1], items[|items| - 1];
      BitsAreNamed(init, b);
      GroupNames(Lower(last), b);
      assert forall i | 0 <= i < |init| :: items[i] == init[i];
    }
  }

  /** What one accepted token does to the two settings. */
  lemma TokenSets(tok: string, f: Filter)
    requires Step(tok, f).Some?
    ensures KeyOf(tok) == "format" || KeyOf(tok) == "fields" ==> HasValue(tok)
    ensures Step(tok, f).value.format == if KeyOf(tok) == "format" then FormatNumber(ValueOf(tok)) else f.format
    ensures forall b: nat :: b in Step(tok, f).value.fieldMask <==>
      if KeyOf(tok) == "fields" then ListNames(ValueOf(tok), b) else b in f.fieldMask
  {
    hide Lower, Items, FieldBits, KeyOf, ReadStates, ReadPorts, ReadAddr, NamesField, IsDirective;
    ParsedIsDirective(tok);
    DirectiveOf(tok);
    if KeyOf(tok) == "fields" {
      forall b: nat ensures b in Step(tok, f).value.fieldMask <==> ListNames(ValueOf(tok), b) {
        BitsAreNamed(Items(ValueOf(tok), {','}), b);
      }
    }
  }

  lemma DirectiveOf(tok: string)
    requires ParseToken(tok).Some?
    ensures var d := ParseToken(tok).value;
      && (d.Format? <==> KeyOf(tok) == "format") && (d.FieldList? <==> KeyOf(tok) == "fields")
      && (d.Format? ==> HasValue(tok) && d.format == FormatNumber(ValueOf(tok)))
      && (d.FieldList? ==> HasValue(tok) && FieldBits(Items(ValueOf(tok), {','})) == Some(d.mask))
  {
    hide Lower, Items, FieldBits, KeyOf, ReadStates, ReadPorts, ParseV4, ParseV6;
  }

  // ---------------------------------------------------------------- whole strings

  lemma {:induction false} RunSets(toks: seq<string>, f: Filter)
    requires Run(toks, f).Some?
    ensures var g, t := Run(toks, f).value, Last(toks, "format");
      (t.Some? ==> HasValue(t.value)) && g.format == if t.Some? then FormatNumber(ValueOf(t.value)) else f.format
    ensures var g, t := Run(toks, f).value, Last(toks, "fields");
      (t.Some? ==> HasValue(t.value)) && forall b: nat ::
        b in g.fieldMask <==> if t.Some? then ListNames(ValueOf(t.value), b) else b in f.fieldMask
  {
    hide Step, KeyOf, HasValue, ValueOf, FormatNumber, ListNames;
    if toks != [] {
      TokenSets(toks[0], f);
      RunSets(toks[1..], Step(toks[0], f).value);
    }
  }

  /** The settings of every accepted string: the format is 1 exactly when the last `format` says "full", and the field
      mask has exactly the fields that the last `fields` names, or fields 0 to 3 and 7 without one. */
  lemma SettingsMeaning(input: string)
    requires Compile(input).Compiled?
    ensures var f, t := Compile(input).filter, Last(Tokens(input), "format");
      && (t.Some? ==> HasValue(t.value))
      && (f.format == 1 <==> t.Some? && Lower(ValueOf(t.value)) == "full") && (f.format == 0 || f.format == 1)
    ensures var f, t := Compile(input).filter, Last(Tokens(input), "fields");
      && (t.Some? ==> HasValue(t.value))
      && forall b: nat ::
           b in f.fieldMask <==> if t.Some? then ListNames(ValueOf(t.value), b) else b in {0, 1, 2, 3, 7}
  {
    hide Run, KeyOf, HasValue, ValueOf, Lower, ListNames, Tokens, Last, Printable, Compatible;
    if input == "" || input[0] == NUL {
      EmptyHasNoTokens(input);
    } else {
      RunSets(Tokens(input), DEFAULT_FILTER);
    }
  }

  lemma EmptyHasNoTokens(input: string)
    requires input == "" || input[0] == NUL
    ensures Tokens(input) == [] && forall key: string :: Last([], key) == None
  {
  }
}
