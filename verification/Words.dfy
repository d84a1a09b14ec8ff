/**
 Which tokens are directives, in terms of their text.
 */
module Words {
  import opened Text
  import opened Numbers
  import opened Ipv4
  import opened Ipv6
  import opened Filter
  import opened Settings

  ghost predicate IsPort(item: string) { exists p: nat :: 1 <= p <= 65535 && item == Decimal(p) }

  ghost predicate IsState(item: string) { exists n: nat :: NamesState(Lower(item), n) }

  ghost predicate IsFieldGroup(item: string) { exists b: nat :: NamesField(Lower(item), b) }

  /** No two items name the same state. */
  ghost predicate NoStateTwice(items: seq<string>) {
    forall i, j, n: nat | 0 <= i < j < |items| && NamesState(Lower(items[i]), n) :: !NamesState(Lower(items[j]), n)
  }

  predicate NoTextTwice(items: seq<string>) { forall i, j | 0 <= i < j < |items| :: items[i] != items[j] }

  ghost predicate IsPortList(items: seq<string>) {
    1 <= |items| <= 8 && NoTextTwice(items) && forall i | 0 <= i < |items| :: IsPort(items[i])
  }

  ghost predicate IsStateList(items: seq<string>) {
    NoStateTwice(items) && forall i | 0 <= i < |items| :: IsState(items[i])
  }

  ghost predicate IsFieldList(items: seq<string>) { forall i | 0 <= i < |items| :: IsFieldGroup(items[i]) }

  ghost predicate IsAddress(value: string) {
    if ':' in value then ParseV6(value).Some? else exists n :: IsNet4(n) && WritesV4(value, n)
  }

  /** The value, taken apart at its commas, is right for the key. */
  ghost predicate IsValue(key: string, value: string) {
    var items := Items(value, {','});
    if key == "exclude" then IsStateList(items)
    else if key == "include_state" then IsStateList(items) && items != []
    else if key == "local_port" || key == "remote_port" then IsPortList(items)
    else if key == "local_addr" || key == "remote_addr" then IsAddress(value)
    else if key == "format" then Lower(value) == "compact" || Lower(value) == "full"
    else if key == "fields" then IsFieldList(items) && items != []
    else false
  }

  // ---------------------------------------------------------------- lists

  lemma {:induction false} ReadAllExactly(items: seq<string>, read: string -> Option<nat>)
    ensures ReadAll(items, read).Some? <==>
      && (forall i | 0 <= i < |items| :: read(items[i]).Some?)
      && (forall i, j | 0 <= i < j < |items| :: read(items[i]) != read(items[j]))
  {
    if items != [] {
      var n := |items| - 1;
      var init := items[..n];
      ReadAllExactly(init, read);
      assert forall i | 0 <= i < n :: items[i] == init[i];
      var r := ReadAll(init, read);
      if r.Some? && read(items[n]).Some? && read(items[n]).value in r.value {
        var i :| 0 <= i < n && r.value[i] == read(items[n]).value;
        assert read(items[i]) == read(items[n]);
      }
    }
  }

  lemma PortItem(item: string)
    ensures PortOf(item).Some? <==> IsPort(item)
  {
    if PortOf(item).Some? { PortExact(item, PortOf(item).value); }
    if IsPort(item) {
      var p: nat :| 1 <= p <= 65535 && item == Decimal(p);
      PortExact(item, p);
    }
  }

  lemma SamePort(a: string, b: string)
    requires PortOf(a).Some? && PortOf(b).Some?
    ensures PortOf(a) == PortOf(b) <==> a == b
  {
    PortExact(a, PortOf(a).value);
    PortExact(b, PortOf(b).value);
  }

  lemma PortsAccepted(value: string)
    ensures ReadPorts(value).Some? <==> IsPortList(Items(value, {','}))
  {
    hide Items, ReadAll, PortOf, IsPort;
    var items := Items(value, {','});
    ReadAllExactly(items, PortOf);
    forall i | 0 <= i < |items| ensures PortOf(items[i]).Some? <==> IsPort(items[i]) { PortItem(items[i]); }
    forall i, j | 0 <= i < j < |items| && PortOf(items[i]).Some? && PortOf(items[j]).Some?
      ensures PortOf(items[i]) == PortOf(items[j]) <==> items[i] == items[j]
    {
      SamePort(items[i], items[j]);
    }
  }

  lemma StateItem(item: string)
    ensures StateOf(item).Some? <==> IsState(item)
  {
    hide NamesState, StateOf;
    forall n: nat ensures StateOf(item) == Some(n) <==> NamesState(Lower(item), n) { StatesExactly(item, n); }
  }

  lemma SameState(a: string, b: string)
    requires StateOf(a).Some? && StateOf(b).Some?
    ensures StateOf(a) == StateOf(b) <==> exists n: nat :: NamesState(Lower(a), n) && NamesState(Lower(b), n)
  {
    hide NamesState, StateOf;
    forall n: nat ensures StateOf(a) == Some(n) <==> NamesState(Lower(a), n) { StatesExactly(a, n); }
    forall n: nat ensures StateOf(b) == Some(n) <==> NamesState(Lower(b), n) { StatesExactly(b, n); }
  }

  lemma StatesAccepted(value: string)
    ensures ReadStates(value).Some? <==> IsStateList(Items(value, {','}))
    ensures ReadStates(value).Some? ==> |ReadStates(value).value| == |Items(value, {','})|
  {
    hide Items, ReadAll, StateOf, IsState, NamesState, Lower;
    var items := Items(value, {','});
    ReadAllExactly(items, StateOf);
    forall i | 0 <= i < |items| ensures StateOf(items[i]).Some? <==> IsState(items[i]) { StateItem(items[i]); }
    forall i, j | 0 <= i < j < |items| && StateOf(items[i]).Some? && StateOf(items[j]).Some?
      ensures StateOf(items[i]) == StateOf(items[j]) <==>
        exists n: nat :: NamesState(Lower(items[i]), n) && NamesState(Lower(items[j]), n)
    {
      SameState(items[i], items[j]);
    }
  }

  // ---------------------------------------------------------------- fields and addresses

  lemma GroupListed(name: string, b: nat)
    requires NamesField(name, b)
    ensures exists i | 0 <= i < |FIELD_GROUPS| :: FIELD_GROUPS[i].0 == name
  {
    var i := if name == "all" then 10 else if name == "default" then 11 else b;
    assert FIELD_GROUPS[i].0 == name;
  }

  lemma NamesSome(i: nat)
    requires i < |FIELD_GROUPS|
    ensures FIELD_GROUPS[i].1 != {}
  {
    assert if i < 10 then i in FIELD_GROUPS[i].1 else 0 in FIELD_GROUPS[i].1;
  }

  lemma GroupItem(item: string)
    ensures Lookup(FIELD_GROUPS, Lower(item)).Some? <==> IsFieldGroup(item)
    ensures Lookup(FIELD_GROUPS, Lower(item)).Some? ==> Lookup(FIELD_GROUPS, Lower(item)).value != {}
  {
    hide NamesField, Lookup, Lower;
    var low := Lower(item);
    if Lookup(FIELD_GROUPS, low).Some? {
      LookupIn(FIELD_GROUPS, low);
      var i :| 0 <= i < |FIELD_GROUPS| && FIELD_GROUPS[i] == (low, Lookup(FIELD_GROUPS, low).value);
      NamesSome(i);
      var b :| b in Lookup(FIELD_GROUPS, low).value;
      GroupNames(low, b);
    }
    if IsFieldGroup(item) {
      var b: nat :| NamesField(low, b);
      GroupListed(low, b);
      var i :| 0 <= i < |FIELD_GROUPS| && FIELD_GROUPS[i].0 == low;
      Listed(FIELD_GROUPS, i);
    }
  }

  lemma {:induction false} FieldsExactly(items: seq<string>)
    ensures FieldBits(items).Some? <==> IsFieldList(items)
    ensures FieldBits(items).Some? ==> (FieldBits(items).value == {} <==> items == [])
  {
    hide IsFieldGroup, Lookup, Lower;
    if items != [] {
      var n := |items| - 1;
      FieldsExactly(items[..n]);
      GroupItem(items[n]);
      assert forall i | 0 <= i < n :: items[i] == items[..n][i];
    }
  }

  lemma AddrAccepted(dir: Direction, value: string)
    ensures ReadAddr(dir, value).Some? <==> IsAddress(value)
  {
    hide ParseV4, ParseV6, WritesV4;
    if ':' !in value {
      if ParseV4(value).Some? { V4Exact(value, ParseV4(value).value); }
      forall n | IsNet4(n) && WritesV4(value, n) ensures ParseV4(value).Some? { V4Exact(value, n); }
    }
  }

  // ---------------------------------------------------------------- tokens

  lemma ValueAccepted(key: string, value: string)
    ensures ReadKeyValue(key, value).Some? <==> IsValue(key, value)
  {
    hide Lower, Items, ReadPorts, ReadStates, FieldBits, ReadAddr;
    hide IsPortList, IsStateList, IsFieldList, IsAddress;
    PortsAccepted(value);
    StatesAccepted(value);
    FieldsExactly(Items(value, {','}));
    AddrAccepted(Local, value);
    AddrAccepted(Remote, value);
  }

  /** A token is a directive if and only if it is one of the two flags, or one of the eight keys with a right value. */
  lemma TokenAccepted(tok: string)
    ensures ParseToken(tok).Some? <==>
      if HasValue(tok) then IsValue(KeyOf(tok), ValueOf(tok)) && ValueOf(tok) != ""
      else KeyOf(tok) == "ipv4_only" || KeyOf(tok) == "ipv6_only"
  {
    hide KeyOf, ValueOf, ReadKeyValue, IsValue;
    if HasValue(tok) { ValueAccepted(KeyOf(tok), ValueOf(tok)); }
  }
}
