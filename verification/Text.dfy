/** Options, results and the character classes that several components share. */
module Text {

  datatype Option<+T> = None | Some(value: T)

  datatype Result<+T, +E> = Ok(value: T) | Err(error: E)

  type Byte = x: int | 0 <= x < 256

  const U64_BOUND: int := 0x1_0000_0000_0000_0000

  predicate IsDigit(c: char) { '0' <= c <= '9' }

  predicate IsLower(c: char) { 'a' <= c <= 'z' }

  predicate IsUpper(c: char) { 'A' <= c <= 'Z' }

  predicate IsAlphanumeric(c: char) { IsDigit(c) || IsLower(c) || IsUpper(c) }

  predicate IsHexDigit(c: char) { IsDigit(c) || 'a' <= c <= 'f' || 'A' <= c <= 'F' }

  function LowerChar(c: char): char {
    if IsUpper(c) then c - 'A' + 'a' else c
  }

  function Lower(s: string): (r: string)
    ensures |r| == |s|
    ensures forall i :: 0 <= i < |s| ==> r[i] == LowerChar(s[i])
  {
    seq(|s|, i requires 0 <= i < |s| => LowerChar(s[i]))
  }

  /** A 64-digit hexadecimal digest, in either case. */
  predicate IsSha256(s: string) {
    |s| == 64 && forall i :: 0 <= i < 64 ==> IsHexDigit(s[i])
  }

  /** The number of bytes of the UTF-8 form of a text. */
  function Utf8Length(s: string): nat {
    if s == "" then 0 else CharBytes(s[0]) + Utf8Length(s[1..])
  }

  function CharBytes(c: char): nat {
    if c < '\U{80}' then 1 else if c < '\U{800}' then 2 else if c < '\U{10000}' then 3 else 4
  }

  predicate IsControl(c: char) { c < '\U{20}' || '\U{7F}' <= c <= '\U{9F}' }

  /** The Unicode White_Space property. */
  predicate IsWhitespace(c: char) {
    || '\U{9}' <= c <= '\U{D}' || c == ' ' || c == '\U{85}' || c == '\U{A0}' || c == '\U{1680}'
    || '\U{2000}' <= c <= '\U{200A}' || c == '\U{2028}' || c == '\U{2029}' || c == '\U{202F}'
    || c == '\U{205F}' || c == '\U{3000}'
  }

  /** Splitting at every separator; never empty. */
  function Split<T(==)>(s: seq<T>, sep: T): (parts: seq<seq<T>>)
    ensures |parts| > 0
  {
    if s == [] then [[]]
    else
      var rest := Split(s[1..], sep);
      if s[0] == sep then [[]] + rest else [[s[0]] + rest[0]] + rest[1..]
  }

  /** An element other than the separator lies inside one of the parts. */
  lemma {:induction false} SplitCovers<T>(s: seq<T>, sep: T, i: nat)
    requires i < |s| && s[i] != sep
    ensures exists k :: 0 <= k < |Split(s, sep)| && s[i] in Split(s, sep)[k]
  {
    var parts := Split(s, sep);
    var rest := Split(s[1..], sep);
    if i == 0 {
      assert s[0] in parts[0];
    } else {
      SplitCovers(s[1..], sep, i - 1);
      var k :| 0 <= k < |rest| && s[i] in rest[k];
      if s[0] == sep {
        assert parts[k + 1] == rest[k];
      } else {
        assert parts[k] == if k == 0 then [s[0]] + rest[0] else rest[k];
      }
    }
  }

  /** The parts put together again. */
  function Join<T>(parts: seq<seq<T>>, sep: T): seq<T>
    requires |parts| > 0
  {
    if |parts| == 1 then parts[0] else parts[0] + [sep] + Join(parts[1..], sep)
  }

  /** Splitting loses nothing, and no part holds the separator. */
  lemma {:induction false} JoinSplit<T>(s: seq<T>, sep: T)
    ensures Join(Split(s, sep), sep) == s
    ensures forall k :: 0 <= k < |Split(s, sep)| ==> sep !in Split(s, sep)[k]
  {
    if s != [] {
      JoinSplit(s[1..], sep);
      var parts, rest := Split(s, sep), Split(s[1..], sep);
      if s[0] == sep {
        assert parts[1..] == rest;
        assert forall k :: 1 <= k < |parts| ==> parts[k] == rest[k - 1];
      } else {
        assert parts[1..] == rest[1..];
        assert forall k :: 1 <= k < |parts| ==> parts[k] == rest[k];
      }
    }
  }

  /** Parts without the separator are recovered from what they were joined into. */
  lemma {:induction false} SplitJoin<T>(parts: seq<seq<T>>, sep: T)
    requires |parts| > 0 && forall k :: 0 <= k < |parts| ==> sep !in parts[k]
    ensures Split(Join(parts, sep), sep) == parts
    decreases |parts|, |parts[0]|
  {
    var s := Join(parts, sep);
    if parts[0] == [] {
      if |parts| > 1 {
        SplitJoin(parts[1..], sep);
        assert s[1..] == Join(parts[1..], sep);
        assert [[]] + parts[1..] == parts;
      }
    } else {
      var shorter := [parts[0][1..]] + parts[1..];
      assert parts[0] == [parts[0][0]] + parts[0][1..];
      assert s == [parts[0][0]] + Join(shorter, sep) by {
        assert shorter[1..] == parts[1..];
      }
      assert s[1..] == Join(shorter, sep);
      SplitJoin(shorter, sep);
      assert [[s[0]] + shorter[0]] + shorter[1..] == parts;
    }
  }

  function Lookup<K, V>(entries: map<K, V>, key: K): Option<V> { if key in entries then Some(entries[key]) else None }

  predicate Distinct<T(==)>(s: seq<T>) { forall i, j :: 0 <= i < j < |s| ==> s[i] != s[j] }

  /** One part of a script stands in the whole from `base` on, to the end. */
  ghost predicate Follows<A>(script: seq<A>, base: nat, part: seq<A>) {
    |script| == base + |part| && forall i :: 0 <= i < |part| ==> script[base + i] == part[i]
  }

  predicate OccursAt<T(==)>(s: seq<T>, needle: seq<T>, i: nat) {
    i + |needle| <= |s| && s[i..i + |needle|] == needle
  }

  /** The first occurrence at or after a position. */
  function FindFrom<T(==)>(s: seq<T>, needle: seq<T>, start: nat): (r: Option<nat>)
    ensures r.Some? ==> start <= r.value && OccursAt(s, needle, r.value)
    ensures forall i :: start <= i && (r.Some? ==> i < r.value) ==> !OccursAt(s, needle, i)
    decreases |s| - start
  {
    if start + |needle| > |s| then None
    else if OccursAt(s, needle, start) then Some(start)
    else if start == |s| then None
    else FindFrom(s, needle, start + 1)
  }

  /** A text is cut in one way at the first of a kind of element. */
  lemma CutOnce<T>(a: seq<T>, b: seq<T>, sep: T, c: seq<T>, d: seq<T>)
    requires sep !in a && sep !in c && a + [sep] + b == c + [sep] + d
    ensures a == c && b == d
  {
    var s := a + [sep] + b;
    assert s[|a|] == sep && s[|c|] == sep;
    assert a == s[..|a|] == c;
    assert b == s[|a| + 1..] == d;
  }
}
