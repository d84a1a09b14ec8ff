/**
 What the requests to the profile registry do, in terms of the request's text and the list of profiles before it.
 */
module Effects {
  import opened Text
  import opened Filter
  import opened Profiles

  /** The profile a request by that name is about. */
  predicate FirstNamed(es: seq<Entry>, i: int, name: string) {
    0 <= i < |es| && es[i].name == name && forall k | 0 <= k < i :: es[k].name != name
  }

  ghost predicate Known(es: seq<Entry>, name: string) { exists i :: FirstNamed(es, i, name) }

  /** The first profile with that name has the new text and filter; every other profile is as it was. */
  predicate Updated(es: seq<Entry>, out: seq<Entry>, name: string, text: string, f: Filter) {
    && |out| == |es|
    && forall i | 0 <= i < |es| :: out[i] == if FirstNamed(es, i, name) then Entry(name, text, f) else es[i]
  }

  /** The first profile with that name is gone; every other profile is as it was, in the same order. */
  ghost predicate Removed(es: seq<Entry>, out: seq<Entry>, name: string) {
    if Known(es, name) then
      exists i :: FirstNamed(es, i, name) && |out| == |es| - 1 &&
        forall k | 0 <= k < |out| :: out[k] == es[if k < i then k else k + 1]
    else out == es
  }

  predicate HasBadChar(name: string) {
    exists i | 0 <= i < |name| :: !('a' <= name[i] <= 'z') && !('0' <= name[i] <= '9') && name[i] != '_'
  }

  /** The line may end with a newline, which is dropped; the rest of it has no NUL. */
  predicate IsLine(line: string, s: string) {
    NUL !in s && (line == s + "\n" || (line == s && (s == "" || s[|s| - 1] != '\n')))
  }

  lemma LineTrimmed(line: string, s: string)
    requires IsLine(line, s)
    ensures Trimmed(line) == s
  {
    hide Until;
    assert forall k | 0 <= k < |line| :: line[k] != NUL;
    assert Until(line) == line;
  }

  lemma PositionIsFirst(es: seq<Entry>, name: string)
    ensures Position(es, name) < |es| <==> Known(es, name)
    ensures forall i :: FirstNamed(es, i, name) <==> i == Position(es, name) < |es|
  {
    hide Position;
    var p := Position(es, name);
    if p < |es| { assert FirstNamed(es, p, name); }
  }

  lemma WithoutRemoves(es: seq<Entry>, name: string)
    ensures Removed(es, Without(es, name), name)
  {
    hide Position, FirstNamed;
    PositionIsFirst(es, name);
    var p, out := Position(es, name), Without(es, name);
    if p < |es| { assert forall k | 0 <= k < |out| :: out[k] == es[if k < p then k else k + 1]; }
  }

  lemma NameChecked(name: string)
    ensures CheckName(name) ==
      if name == "" then Option.Some(BadName)
      else if |name| > 32 then Option.Some(NameTooLong)
      else if HasBadChar(name) then Option.Some(BadName)
      else Option.None
  {
    if name != "" && |name| <= 32 {
      if CheckName(name).Some? {
        var i :| 0 <= i < |name| && !NameChar(name[i]);
        assert HasBadChar(name);
      }
    }
  }

  /** Writing "name text" to `profile_set`: when it fails, when it updates and when it creates. */
  lemma SetEffect(es: seq<Entry>, name: string, text: string, line: string, deviceMade: bool)
    requires ' ' !in name && IsLine(line, name + " " + text)
    ensures var (out, error) := Serve(es, Set(line, deviceMade));
      if name == "" then (out, error) == (es, Some(BadName))
      else if |name| > 32 then (out, error) == (es, Some(NameTooLong))
      else if HasBadChar(name) then (out, error) == (es, Some(BadName))
      else match Compile(text)
        case Rejected(errno) => (out, error) == (es, Some(BadFilter(errno)))
        case Compiled(f) =>
          if Known(es, name) then error == None && Updated(es, out, name, text, f)
          else if |es| >= 16 then (out, error) == (es, Some(TooMany))
          else if !deviceMade then (out, error) == (es, Some(NoDevice))
          else error == None && out == [Entry(if |name| == 32 then name[..31] else name, text, f)] + es
  {
    hide Compile, Trimmed, CheckName, Position, Find;
    LineTrimmed(line, name + " " + text);
    FindAfter(name, ' ', text);
    assert name + " " + text == name + [' '] + text;
    NameChecked(name);
    PositionIsFirst(es, name);
  }

  /** Writing a name alone: the profile is removed, if there is one. */
  lemma DeleteEffect(es: seq<Entry>, name: string, line: string, deviceMade: bool)
    requires ' ' !in name && IsLine(line, name)
    ensures var (out, error) := Serve(es, Set(line, deviceMade));
      if name == "" then (out, error) == (es, Some(BadName))
      else if |name| > 32 then (out, error) == (es, Some(NameTooLong))
      else if HasBadChar(name) then (out, error) == (es, Some(BadName))
      else error == None && Removed(es, out, name)
  {
    hide Compile, Trimmed, CheckName, Position, Find, Without, Removed;
    LineTrimmed(line, name);
    FindUnique(name, {' '}, |name|);
    assert name[..|name|] == name;
    NameChecked(name);
    WithoutRemoves(es, name);
  }

  /** Writing to the node of one profile. */
  lemma SetOneEffect(es: seq<Entry>, name: string, text: string, line: string)
    requires IsLine(line, text)
    ensures var (out, error) := Serve(es, SetOne(name, line));
      if text == "" then error == None && Removed(es, out, name)
      else match Compile(text)
        case Rejected(errno) => (out, error) == (es, Some(BadFilter(errno)))
        case Compiled(f) =>
          if Known(es, name) then error == None && Updated(es, out, name, text, f)
          else (out, error) == (es, Some(NotFound))
  {
    hide Compile, Trimmed, Position, Without, Removed;
    LineTrimmed(line, text);
    PositionIsFirst(es, name);
    WithoutRemoves(es, name);
  }

  /** With unique names an update changes the one profile with the name, and after a removal there is none. */
  lemma UniqueEffects(es: seq<Entry>, out: seq<Entry>, name: string)
    requires Unique(es) && Removed(es, out, name)
    ensures forall e :: e in out <==> e in es && e.name != name
  {
    if Known(es, name) {
      var i :| FirstNamed(es, i, name) && |out| == |es| - 1 &&
        forall k | 0 <= k < |out| :: out[k] == es[if k < i then k else k + 1];
      forall e ensures e in out <==> e in es && e.name != name {
        if e in es && e.name != name {
          var k :| 0 <= k < |es| && es[k] == e;
          assert out[if k < i then k else k - 1] == e;
        }
      }
    } else {
      forall k | 0 <= k < |es| ensures es[k].name != name { PositionIsFirst(es, name); }
    }
  }
}
