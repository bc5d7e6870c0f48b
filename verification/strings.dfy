/** The PHP string primitives the client relies on, for byte-per-char text:
    `trim` with its default character list, ASCII `strtolower`/`strtoupper`,
    `strpos` for one character, and `explode`/`implode` on one delimiter. */
module Strings {
  import opened Wrappers

  /** The characters `trim` strips when no list is given:
      space, tab, line feed, carriage return, NUL and vertical tab. */
  predicate IsTrimChar(c: char) {
    c == ' ' || c == '\t' || c == '\n' || c == '\r' || c == '\0' || c == '\U{0B}'
  }

  /** How many trim characters `s` starts with. */
  function LeadingTrim(s: string): (n: nat)
    ensures n <= |s|
    ensures forall i :: 0 <= i < n ==> IsTrimChar(s[i])
    ensures n == |s| || !IsTrimChar(s[n])
  {
    if |s| > 0 && IsTrimChar(s[0]) then 1 + LeadingTrim(s[1..]) else 0
  }

  /** Where the trailing run of trim characters of `s` begins. */
  function TrailingTrim(s: string): (n: nat)
    ensures n <= |s|
    ensures forall i :: n <= i < |s| ==> IsTrimChar(s[i])
    ensures n == 0 || !IsTrimChar(s[n - 1])
  {
    if |s| > 0 && IsTrimChar(s[|s| - 1]) then TrailingTrim(s[..|s| - 1]) else |s|
  }

  /** `trim`: the text between the leading and the trailing trim
      characters (empty when every character is one). */
  function Trim(s: string): (r: string)
    ensures |r| <= |s|
    ensures r == [] || (!IsTrimChar(r[0]) && !IsTrimChar(r[|r| - 1]))
  {
    var e := TrailingTrim(s);
    s[..e][LeadingTrim(s[..e])..]
  }

  /** Trim removes exactly the padding: any run of trim characters on either
      side of a text that neither starts nor ends with one. */
  lemma TrimPadding(left: string, core: string, right: string)
    requires forall i :: 0 <= i < |left| ==> IsTrimChar(left[i])
    requires forall i :: 0 <= i < |right| ==> IsTrimChar(right[i])
    requires core == [] || (!IsTrimChar(core[0]) && !IsTrimChar(core[|core| - 1]))
    ensures Trim(left + core + right) == core
  {
    var s := left + core + right;
    var e := TrailingTrim(s);
    if core == [] {
      assert forall i :: 0 <= i < |s| ==> IsTrimChar(s[i]);
      assert e == 0;
    } else {
      assert s[|left| + |core| - 1] == core[|core| - 1];
      assert e == |left| + |core|;
      var t := s[..e];
      assert t == left + core;
      var b := LeadingTrim(t);
      assert t[|left|] == core[0];
      assert b == |left|;
      assert t[b..] == core;
    }
  }

  /** A single leading space makes no difference to trim: the value of a
      `"Key: Value"` entry trims to the trimmed value. */
  lemma TrimLeadingSpace(v: string)
    ensures Trim(" " + v) == Trim(v)
  {
    var e := TrailingTrim(v);
    var t := v[..e];
    var b := LeadingTrim(t);
    var left, core, right := t[..b], t[b..], v[e..];
    assert t == left + core && v == t + right;
    assert forall i :: 0 <= i < |left| ==> IsTrimChar(left[i]);
    TrimPadding(left, core, right);
    assert v == left + core + right;
    var padded := " " + left;
    forall i | 0 <= i < |padded| ensures IsTrimChar(padded[i]) {
      if i > 0 {
        assert padded[i] == left[i - 1];
      }
    }
    TrimPadding(padded, core, right);
    SpaceJoin(left, core, right);
  }

  lemma SpaceJoin(left: string, core: string, right: string)
    ensures (" " + left) + core + right == " " + (left + core + right)
  {
    var a := (" " + left) + core + right;
    var b := " " + (left + core + right);
    assert |a| == |b|;
    forall i | 0 <= i < |a| ensures a[i] == b[i] {
      if i == 0 {
      } else if i <= |left| {
        assert a[i] == left[i - 1];
      } else if i <= |left| + |core| {
        assert a[i] == core[i - 1 - |left|];
      } else {
        assert a[i] == right[i - 1 - |left| - |core|];
      }
    }
  }

  predicate IsUpper(c: char) { 'A' <= c <= 'Z' }

  predicate IsLower(c: char) { 'a' <= c <= 'z' }

  function LowerChar(c: char): (d: char)
    ensures !IsUpper(d)
  {
    if IsUpper(c) then (c as int + 32) as char else c
  }

  function UpperChar(c: char): (d: char)
    ensures !IsLower(d)
  {
    if IsLower(c) then (c as int - 32) as char else c
  }

  /** `strtolower` (ASCII only, as PHP 8.2 and later do it): the same text,
      character by character, with A-Z mapped to a-z. */
  function ToLower(s: string): (r: string)
    ensures |r| == |s|
    ensures forall i :: 0 <= i < |s| ==> !IsUpper(r[i])
    ensures forall i :: 0 <= i < |s| && !IsUpper(s[i]) ==> r[i] == s[i]
    ensures forall i :: 0 <= i < |s| && IsUpper(s[i]) ==> r[i] as int == s[i] as int + 32
  {
    seq(|s|, i requires 0 <= i < |s| => LowerChar(s[i]))
  }

  /** `strtoupper` (ASCII only): a-z mapped to A-Z, everything else kept. */
  function ToUpper(s: string): (r: string)
    ensures |r| == |s|
    ensures forall i :: 0 <= i < |s| ==> !IsLower(r[i])
    ensures forall i :: 0 <= i < |s| && !IsLower(s[i]) ==> r[i] == s[i]
    ensures forall i :: 0 <= i < |s| && IsLower(s[i]) ==> r[i] as int == s[i] as int - 32
  {
    seq(|s|, i requires 0 <= i < |s| => UpperChar(s[i]))
  }

  /** The position of the first `c` in `s` (`strpos` for one character). */
  function Find(s: string, c: char): (r: Option<nat>)
    ensures r.Some? ==> r.value < |s| && s[r.value] == c && c !in s[..r.value]
    ensures r.None? ==> c !in s
  {
    if s == [] then None
    else if s[0] == c then Some(0)
    else match Find(s[1..], c)
      case None => None
      case Some(i) =>
        assert s[..i + 1] == [s[0]] + s[1..][..i];
        Some(i + 1)
  }

  /** An occurrence with none before it is the one Find reports. */
  lemma FindFirst(s: string, c: char, i: nat)
    requires i < |s| && s[i] == c && c !in s[..i]
    ensures Find(s, c) == Some(i)
  {
  }

  /** `explode($c, $s, 2)`: the text before the first `c` and the text after
      it, or None when `c` does not occur (PHP then returns just `[$s]`). */
  function SplitFirst(s: string, c: char): (r: Option<(string, string)>)
    ensures r.Some? ==> s == r.value.0 + [c] + r.value.1 && c !in r.value.0
    ensures r.None? ==> c !in s
  {
    match Find(s, c)
      case None => None
      case Some(i) =>
        assert s == s[..i] + [c] + s[i + 1..];
        Some((s[..i], s[i + 1..]))
  }

  /** Splitting a key that has no `c` joined to any value gives both back. */
  lemma SplitFirstJoin(key: string, c: char, value: string)
    requires c !in key
    ensures SplitFirst(key + [c] + value, c) == Some((key, value))
  {
    var s := key + [c] + value;
    assert s[|key|] == c && s[..|key|] == key;
  }

  /** `explode($c, $s)`: the pieces between the occurrences of `c`. */
  function Explode(s: string, c: char): (parts: seq<string>)
    ensures |parts| >= 1
    ensures forall i :: 0 <= i < |parts| ==> c !in parts[i]
    decreases |s|
  {
    match Find(s, c)
      case None => [s]
      case Some(i) => [s[..i]] + Explode(s[i + 1..], c)
  }

  /** `implode($c, $parts)`: the pieces joined with `c` between them. */
  function Implode(parts: seq<string>, c: char): string {
    if parts == [] then ""
    else if |parts| == 1 then parts[0]
    else parts[0] + [c] + Implode(parts[1..], c)
  }

  /** Exploding and imploding on the same character restores the text. */
  lemma {:induction false} ImplodeExplode(s: string, c: char)
    ensures Implode(Explode(s, c), c) == s
    decreases |s|
  {
    match Find(s, c)
    case None =>
    case Some(i) =>
      var rest := s[i + 1..];
      var tail := Explode(rest, c);
      ImplodeExplode(rest, c);
      var parts := [s[..i]] + tail;
      assert Explode(s, c) == parts;
      assert parts[1..] == tail;
      assert Implode(parts, c) == s[..i] + [c] + Implode(tail, c);
      assert s == s[..i] + [c] + rest;
  }

  /** The first piece of `explode` is the text before the first `c`; the
      others, joined again, are exactly the text after it. */
  lemma ExplodeFirst(s: string, c: char)
    ensures var parts := Explode(s, c);
      match Find(s, c)
      case None => parts == [s]
      case Some(i) =>
        |parts| >= 2 && parts[0] == s[..i] && Implode(parts[1..], c) == s[i + 1..]
  {
    match Find(s, c)
    case None =>
    case Some(i) =>
      var parts := Explode(s, c);
      assert parts[1..] == Explode(s[i + 1..], c);
      ImplodeExplode(s[i + 1..], c);
  }
}
