/**
 C strings and the string operations the filter parser is written with.

 A C string is a place in a character buffer: `IsCStr(b, p, t)` says that the bytes from `p` up to
 the first NUL spell `t`.  The pure functions (`Find`, `Items`, `Lower`, ...) say what the destructive
 operations compute; the methods do the work in place, one character at a time, and say exactly
 which bytes they touch.
 */
module Text {

  const NUL := '\0'

  datatype Option<+T> = None | Some(value: T)

  ghost predicate IsCStr(b: seq<char>, p: nat, t: string) {
    && p + |t| < |b|
    && b[p..p + |t|] == t
    && b[p + |t|] == NUL
    && NUL !in t
  }

  /** The text of `s` before its first NUL. */
  function Until(s: string): (t: string)
    ensures NUL !in t && t <= s
    ensures |t| < |s| ==> s[|t|] == NUL
  {
    if s == "" || s[0] == NUL then "" else [s[0]] + Until(s[1..])
  }

  /** ASCII lower case: `A`..`Z` gain bit 0x20, which is 32. */
  function ToLower(c: char): char {
    if 'A' <= c <= 'Z' then ((c as int) + 32) as char else c
  }

  function Lower(s: string): (r: string)
    ensures |r| == |s|
    ensures forall i | 0 <= i < |s| :: r[i] == ToLower(s[i])
  {
    seq(|s|, i requires 0 <= i < |s| => ToLower(s[i]))
  }

  lemma LowerEarly()
    ensures Lower("ABCDEFGHIJKLM") == "abcdefghijklm"
  {
  }

  lemma LowerLate()
    ensures Lower("NOPQRSTUVWXYZ") == "nopqrstuvwxyz"
  {
  }

  /** Lower case takes one alphabet to the other and leaves every other character. */
  lemma LowerCase(s: string)
    requires forall i | 0 <= i < |s| :: s[i] < 'A' || 'Z' < s[i]
    ensures Lower("ABCDEFGHIJKLM") == "abcdefghijklm" && Lower("NOPQRSTUVWXYZ") == "nopqrstuvwxyz"
    ensures Lower(s) == s
  {
    LowerEarly();
    LowerLate();
  }

  /** Position of the first character of `s` that is in `delims`, or `|s|`. */
  function Find(s: string, delims: set<char>): (i: nat)
    ensures i <= |s|
    ensures forall k | 0 <= k < i :: s[k] !in delims
    ensures i < |s| ==> s[i] in delims
  {
    if s == "" || s[0] in delims then 0 else 1 + Find(s[1..], delims)
  }

  /** The non-empty pieces of `s` between delimiters, in order. */
  function Items(s: string, delims: set<char>): (r: seq<string>)
    ensures forall t | t in r :: t != ""
    decreases |s|
  {
    var i := Find(s, delims);
    (if i == 0 then [] else [s[..i]]) + (if i == |s| then [] else Items(s[i + 1..], delims))
  }

  /** A piece that may be empty. */
  function Piece(w: string): seq<string> { if w == "" then [] else [w] }

  lemma FirstPiece(u: string, delims: set<char>)
    ensures var i := Find(u, delims);
      Items(u, delims) == Piece(u[..i]) + (if i == |u| then [] else Items(u[i + 1..], delims))
  {
    hide Find;
  }

  lemma SplitAt(s: string, i: nat)
    requires i < |s|
    ensures s == s[..i] + [s[i]] + s[i + 1..]
  {
  }

  lemma AddEmpty<T>(s: seq<T>)
    ensures [] + s == s && s + [] == s
  {
  }

  lemma Assoc<T>(a: seq<T>, b: seq<T>, c: seq<T>)
    ensures a + b + c == a + (b + c)
  {
  }

  lemma WholeSlice(s: string)
    ensures s[..|s|] == s
  {
  }

  lemma FindUnique(s: string, delims: set<char>, i: nat)
    requires i <= |s| && (forall k | 0 <= k < i :: s[k] !in delims)
    requires i < |s| ==> s[i] in delims
    ensures Find(s, delims) == i
  {
  }

  /** The delimiter after a delimiter-free head is the first one. */
  lemma FindAfter(head: string, c: char, rest: string)
    requires c !in head
    ensures Find(head, {c}) == |head|
    ensures var s := head + [c] + rest;
      Find(s, {c}) == |head| && s[..|head|] == head && s[|head| + 1..] == rest
  {
    FindUnique(head, {c}, |head|);
    FindUnique(head + [c] + rest, {c}, |head|);
  }

  /** All pieces of `s` between separators, empty ones included. */
  function Fields(s: string, c: char): (r: seq<string>)
    ensures r != []
    decreases |s|
  {
    var i := Find(s, {c});
    if i == |s| then [s] else [s[..i]] + Fields(s[i + 1..], c)
  }

  function Join(parts: seq<string>, c: char): string
    requires parts != []
  {
    if |parts| == 1 then parts[0] else parts[0] + [c] + Join(parts[1..], c)
  }

  lemma {:induction false} JoinOfFields(s: string, c: char)
    ensures Join(Fields(s, c), c) == s
    decreases |s|
  {
    var i := Find(s, {c});
    if i < |s| {
      JoinOfFields(s[i + 1..], c);
      assert Fields(s, c)[1..] == Fields(s[i + 1..], c);
      SplitAt(s, i);
    }
  }

  lemma FieldsCons(head: string, c: char, tail: string)
    requires c !in head
    ensures Fields(head, c) == [head]
    ensures Fields(head + [c] + tail, c) == [head] + Fields(tail, c)
  {
    FindAfter(head, c, tail);
  }

  lemma {:induction false} FieldsOfJoin(parts: seq<string>, c: char)
    requires parts != [] && forall p | p in parts :: c !in p
    ensures Fields(Join(parts, c), c) == parts
  {
    var rest := parts[1..];
    if rest == [] {
      FieldsCons(parts[0], c, "");
    } else {
      FieldsOfJoin(rest, c);
      FieldsCons(parts[0], c, Join(rest, c));
    }
    assert parts == [parts[0]] + rest;
  }

  /** No part has a delimiter in it, and none is empty. */
  predicate Clean(parts: seq<string>, delims: set<char>) {
    forall i | 0 <= i < |parts| :: parts[i] != "" && forall c | c in parts[i] :: c !in delims
  }

  lemma CleanPart(p: string, delims: set<char>)
    requires forall c | c in p :: c !in delims
    ensures Find(p, delims) == |p|
  {
    forall k | 0 <= k < |p| ensures p[k] !in delims { assert p[k] in p; }
    FindUnique(p, delims, |p|);
  }

  lemma CleanHead(p: string, c: char, rest: string, delims: set<char>)
    requires (forall x | x in p :: x !in delims) && c in delims
    ensures var s := p + [c] + rest; Find(s, delims) == |p| && s[..|p|] == p && s[|p| + 1..] == rest
  {
    var s := p + [c] + rest;
    forall k | 0 <= k < |p| ensures s[k] !in delims { assert p[k] in p; }
    FindUnique(s, delims, |p|);
  }

  /** Joined parts are the pieces of the joined text. */
  lemma {:induction false} ItemsOfJoin(parts: seq<string>, c: char, delims: set<char>)
    requires parts != [] && Clean(parts, delims) && c in delims
    ensures Items(Join(parts, c), delims) == parts
  {
    hide Find;
    var p, rest := parts[0], parts[1..];
    FirstPiece(Join(parts, c), delims);
    if rest == [] {
      CleanPart(p, delims);
      WholeSlice(p);
    } else {
      CleanHead(p, c, Join(rest, c), delims);
      ItemsOfJoin(rest, c, delims);
    }
    assert parts == [p] + rest;
  }

  lemma {:induction false} ItemsAdd(a: string, c: char, b: string, delims: set<char>)
    requires c in delims
    ensures Items(a + [c] + b, delims) == Items(a, delims) + Items(b, delims)
    decreases |a|
  {
    hide Items, Find;
    var i, s := Find(a, delims), a + [c] + b;
    FirstPiece(a, delims);
    FirstPiece(s, delims);
    if i == |a| {
      FindUnique(s, delims, i);
      assert s[..i] == a == a[..i] && s[i + 1..] == b;
      AddEmpty(Piece(a));
    } else {
      FindUnique(s, delims, i);
      assert s[..i] == a[..i] && s[i + 1..] == a[i + 1..] + [c] + b;
      ItemsAdd(a[i + 1..], c, b, delims);
      Assoc(Piece(a[..i]), Items(a[i + 1..], delims), Items(b, delims));
    }
  }

  lemma {:induction false} JoinChars(parts: seq<string>, sep: char, c: char)
    requires parts != [] && c in Join(parts, sep)
    ensures c == sep || exists i | 0 <= i < |parts| :: c in parts[i]
  {
    if |parts| > 1 && c !in parts[0] && c != sep {
      JoinChars(parts[1..], sep, c);
      var i :| 0 <= i < |parts| - 1 && c in parts[1..][i];
      assert c in parts[i + 1];
    }
  }

  /** A C string keeps its text when none of its bytes change. */
  lemma CStrFrame(b: seq<char>, c: seq<char>, p: nat, t: string)
    requires IsCStr(b, p, t) && |b| == |c|
    requires forall j | p <= j <= p + |t| :: c[j] == b[j]
    ensures IsCStr(c, p, t)
  {
    assert c[p..p + |t|] == b[p..p + |t|];
  }

  /** A suffix of a C string is a C string. */
  lemma CStrSuffix(b: seq<char>, p: nat, t: string, k: nat)
    requires IsCStr(b, p, t) && k <= |t|
    ensures IsCStr(b, p + k, t[k..])
  {
    assert b[p + k..p + |t|] == b[p..p + |t|][k..];
  }

  /** Writing a NUL inside a C string leaves two C strings. */
  lemma CStrCut(b: seq<char>, p: nat, t: string, k: nat)
    requires IsCStr(b, p, t) && k < |t|
    ensures IsCStr(b[p + k := NUL], p, t[..k])
    ensures IsCStr(b[p + k := NUL], p + k + 1, t[k + 1..])
  {
    var c := b[p + k := NUL];
    assert c[p..p + k] == b[p..p + |t|][..k] == t[..k];
    assert c[p + k + 1..p + |t|] == b[p..p + |t|][k + 1..];
  }

  lemma CStrAt(b: seq<char>, p: nat, t: string, k: nat)
    requires IsCStr(b, p, t) && k <= |t|
    ensures p + k < |b| && b[p + k] == if k < |t| then t[k] else NUL
    ensures b[p + k] == NUL <==> k == |t|
  {
    if k < |t| { assert t[k] == b[p..p + |t|][k]; }
  }

  /** `strsep`: cuts the string at its first delimiter, which becomes a NUL.  `next` is -1 for the
      null pointer that says there was no delimiter. */
  method StrSep(buf: array<char>, p: nat, delims: set<char>, ghost t: string) returns (next: int)
    requires IsCStr(buf[..], p, t) && NUL !in delims
    modifies buf
    ensures var i := Find(t, delims);
      && IsCStr(buf[..], p, t[..i])
      && (if i == |t| then next == -1 && buf[..] == old(buf[..])
          else next == p + i + 1 && IsCStr(buf[..], next, t[i + 1..]) && buf[..] == old(buf[..])[p + i := NUL])
  {
    hide Find;
    var k := 0;
    CStrAt(buf[..], p, t, 0);
    while buf[p + k] != NUL && buf[p + k] !in delims
      invariant k <= |t| && forall j | 0 <= j < k :: t[j] !in delims
      invariant buf[..] == old(buf[..])
      invariant p + k < buf.Length && buf[p + k] == if k < |t| then t[k] else NUL
      decreases |t| - k
    {
      k := k + 1;
      CStrAt(buf[..], p, t, k);
    }
    FindUnique(t, delims, k);
    if buf[p + k] == NUL {
      assert k == |t| && t[..k] == t;
      return -1;
    }
    CStrCut(buf[..], p, t, k);
    buf[p + k] := NUL;
    return p + k + 1;
  }

  /** `strchr`: index of the first `c`, or -1. */
  method StrChr(buf: array<char>, p: nat, c: char, ghost t: string) returns (r: int)
    requires IsCStr(buf[..], p, t) && c != NUL
    ensures var i := Find(t, {c}); r == if i == |t| then -1 else p + i
  {
    var k := 0;
    CStrAt(buf[..], p, t, 0);
    while buf[p + k] != NUL && buf[p + k] != c
      invariant k <= |t| && forall j | 0 <= j < k :: t[j] !in {c}
      invariant p + k < buf.Length && buf[p + k] == if k < |t| then t[k] else NUL
      decreases |t| - k
    {
      k := k + 1;
      CStrAt(buf[..], p, t, k);
    }
    FindUnique(t, {c}, k);
    r := if buf[p + k] == NUL then -1 else p + k;
  }

  /** `strcmp(...) == 0` against a literal. */
  method StrEq(buf: array<char>, p: nat, lit: string, ghost t: string) returns (eq: bool)
    requires IsCStr(buf[..], p, t) && NUL !in lit
    ensures eq <==> t == lit
  {
    var k := 0;
    CStrAt(buf[..], p, t, 0);
    while k < |lit|
      invariant k <= |lit| && k <= |t| && t[..k] == lit[..k]
      invariant p + k < buf.Length && buf[p + k] == if k < |t| then t[k] else NUL
    {
      if buf[p + k] != lit[k] { return false; }
      assert t[..k + 1] == t[..k] + [t[k]];
      k := k + 1;
      CStrAt(buf[..], p, t, k);
    }
    assert lit[..k] == lit;
    eq := buf[p + k] == NUL;
    assert t[..|t|] == t;
  }

  /** The in-place lower-casing loop over a C string. */
  method LowerInPlace(buf: array<char>, p: nat, ghost t: string)
    requires IsCStr(buf[..], p, t)
    modifies buf
    ensures IsCStr(buf[..], p, Lower(t))
    ensures forall j | 0 <= j < buf.Length && !(p <= j < p + |t|) :: buf[j] == old(buf[j])
  {
    ghost var b0 := buf[..];
    var k := 0;
    CStrAt(b0, p, t, 0);
    while buf[p + k] != NUL
      invariant k <= |t|
      invariant forall j | 0 <= j < buf.Length && !(p <= j < p + k) :: buf[j] == b0[j]
      invariant forall j | 0 <= j < k :: buf[p + j] == ToLower(t[j])
      invariant p + k < buf.Length && buf[p + k] == if k < |t| then t[k] else NUL
      decreases |t| - k
    {
      buf[p + k] := ToLower(buf[p + k]);
      k := k + 1;
      CStrAt(b0, p, t, k);
    }
    assert buf[..][p..p + |t|] == Lower(t);
  }

  /** `strlcpy`: copies what fits and always terminates. */
  method StrLCpy(dst: array<char>, src: array<char>, p: nat, size: nat, ghost t: string)
    requires IsCStr(src[..], p, t) && dst != src && 1 <= size <= dst.Length
    modifies dst
    ensures IsCStr(dst[..], 0, if |t| < size then t else t[..size - 1])
  {
    var k := 0;
    CStrAt(src[..], p, t, 0);
    while k < size - 1 && src[p + k] != NUL
      invariant k <= |t| && k <= size - 1 && dst[..k] == t[..k]
      invariant p + k < src.Length && src[p + k] == if k < |t| then t[k] else NUL
    {
      dst[k] := src[p + k];
      assert t[..k + 1] == t[..k] + [t[k]];
      k := k + 1;
      CStrAt(src[..], p, t, k);
    }
    dst[k] := NUL;
    ghost var u := if |t| < size then t else t[..size - 1];
    assert t[..k] == u && dst[..][0..0 + k] == u;
  }
}
