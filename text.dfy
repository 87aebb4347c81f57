/**
 * The Python and JavaScript string operations the chat pipeline relies on:
 * strip/trim, substring tests, first occurrence, split on one character and
 * lower-casing.
 */
module Text {
  import opened Wrappers

  /** Python `str.isspace()`: what `str.strip()` removes and what the regex class `\s` matches. */
  predicate IsPySpace(c: char) {
    c == ' ' || c == '\t' || c == '\n' || c == '\r' || c == '\U{B}' || c == '\U{C}'
    || ('\U{1C}' <= c <= '\U{1F}') || c == '\U{85}' || c == '\U{A0}' || c == '\U{1680}'
    || ('\U{2000}' <= c <= '\U{200A}') || c == '\U{2028}' || c == '\U{2029}'
    || c == '\U{202F}' || c == '\U{205F}' || c == '\U{3000}'
  }

  /** JavaScript `String.prototype.trim`: WhiteSpace and LineTerminator code points. */
  predicate IsJsSpace(c: char) {
    c == ' ' || c == '\t' || c == '\n' || c == '\r' || c == '\U{B}' || c == '\U{C}'
    || c == '\U{A0}' || c == '\U{1680}' || ('\U{2000}' <= c <= '\U{200A}')
    || c == '\U{2028}' || c == '\U{2029}' || c == '\U{202F}' || c == '\U{205F}'
    || c == '\U{3000}' || c == '\U{FEFF}'
  }

  /** Drops the leading run of characters satisfying `ws`. */
  function TrimStart(s: string, ws: char -> bool): (r: string)
    ensures |r| <= |s| && r == s[|s| - |r|..]
    ensures r == [] || !ws(r[0])
    ensures forall i :: 0 <= i < |s| - |r| ==> ws(s[i])
  {
    if s != [] && ws(s[0]) then TrimStart(s[1..], ws) else s
  }

  /** Drops the trailing run of characters satisfying `ws`. */
  function TrimEnd(s: string, ws: char -> bool): (r: string)
    ensures |r| <= |s| && r == s[..|r|]
    ensures r == [] || !ws(r[|r| - 1])
    ensures forall i :: |r| <= i < |s| ==> ws(s[i])
  {
    if s != [] && ws(s[|s| - 1]) then TrimEnd(s[..|s| - 1], ws) else s
  }

  /** Python `s.strip()`. */
  function Strip(s: string): string {
    TrimEnd(TrimStart(s, IsPySpace), IsPySpace)
  }

  /** JavaScript `s.trim()`. */
  function JsTrim(s: string): string {
    TrimEnd(TrimStart(s, IsJsSpace), IsJsSpace)
  }

  predicate StartsWith(s: string, p: string) {
    |p| <= |s| && s[..|p|] == p
  }

  predicate EndsWith(s: string, p: string) {
    |p| <= |s| && s[|s| - |p|..] == p
  }

  /** `p` occurs in `s` starting at index `i`. */
  predicate OccursAt(s: string, p: string, i: nat) {
    i + |p| <= |s| && s[i..i + |p|] == p
  }

  /** Python `p in s` (JavaScript `s.includes(p)`). */
  predicate Contains(s: string, p: string) {
    exists i | 0 <= i <= |s| :: OccursAt(s, p, i)
  }

  /** The first occurrence of `p` in `s` at or after `i`. */
  function FindFrom(s: string, p: string, i: nat): (r: Option<nat>)
    decreases |s| - i
    ensures r.Some? ==> i <= r.value && OccursAt(s, p, r.value)
    ensures r.Some? ==> forall j :: i <= j < r.value ==> !OccursAt(s, p, j)
    ensures r.None? ==> forall j :: i <= j ==> !OccursAt(s, p, j)
  {
    if i + |p| > |s| then None
    else if OccursAt(s, p, i) then Some(i)
    else FindFrom(s, p, i + 1)
  }

  /** Python `s.find(p)`, with None for -1. */
  function Find(s: string, p: string): (r: Option<nat>)
    ensures r.Some? <==> Contains(s, p)
  {
    FindFrom(s, p, 0)
  }

  /** Python `s.split(p)[0]`: the text before the first `p`, or all of `s`. */
  function Before(s: string, p: string): string {
    match Find(s, p)
    case Some(i) => s[..i]
    case None => s
  }

  /** Python `s.split(p, 1)[1]`, for an `s` that contains `p`. */
  function After(s: string, p: string): string
    requires Contains(s, p)
  {
    var i := Find(s, p).value;
    s[i + |p|..]
  }

  /** A character the regex class `\w` matches in the ASCII range. */
  predicate IsWordChar(c: char) {
    ('a' <= c <= 'z') || ('A' <= c <= 'Z') || ('0' <= c <= '9') || c == '_'
  }

  function LowerChar(c: char): char {
    if 'A' <= c <= 'Z' then (c as int + 32) as char else c
  }

  /** Lower-cases the ASCII letters and leaves every other character as it is. */
  function AsciiLower(s: string): (r: string)
    ensures |r| == |s|
    ensures forall i :: 0 <= i < |s| ==> r[i] == LowerChar(s[i])
  {
    seq(|s|, i requires 0 <= i < |s| => LowerChar(s[i]))
  }

  /** Concatenates the pieces, each followed by `sep`. */
  function Terminated(pieces: seq<string>, sep: char): string {
    if pieces == [] then "" else pieces[0] + [sep] + Terminated(pieces[1..], sep)
  }

  /**
   * Python `s.split(sep)` for a one-character separator: at least one piece,
   * no piece holds `sep`, and the pieces each followed by `sep` spell `s` plus
   * one trailing `sep`.
   */
  function Split(s: string, sep: char): (pieces: seq<string>)
    ensures |pieces| >= 1
    ensures forall k :: 0 <= k < |pieces| ==> sep !in pieces[k]
    ensures Terminated(pieces, sep) == s + [sep]
  {
    if s == [] then [""]
    else
      var rest := Split(s[1..], sep);
      if s[0] == sep then
        assert ([""] + rest)[1..] == rest;
        [""] + rest
      else
        var pieces := [[s[0]] + rest[0]] + rest[1..];
        assert pieces[1..] == rest[1..];
        calc {
          Terminated(pieces, sep);
          [s[0]] + rest[0] + [sep] + Terminated(rest[1..], sep);
          [s[0]] + (rest[0] + [sep] + Terminated(rest[1..], sep));
          [s[0]] + Terminated(rest, sep);
          [s[0]] + s[1..] + [sep];
          { assert [s[0]] + s[1..] == s; }
          s + [sep];
        }
        pieces
  }

  // ----- lemmas -----

  /** A string cannot contain `p` when one of `p`'s characters never occurs in it. */
  lemma NotContainsByChar(s: string, p: string, k: nat)
    requires k < |p| && p[k] !in s
    ensures !Contains(s, p)
  {
  }

  /** An occurrence that cannot span the character `c` lies wholly on one side of it. */
  lemma ContainsAroundSeparator(x: string, c: char, y: string, p: string)
    requires c !in p
    requires Contains(x + [c] + y, p)
    ensures Contains(x, p) || Contains(y, p)
  {
    var s := x + [c] + y;
    var i :| 0 <= i <= |s| && OccursAt(s, p, i);
    OccurrenceChars(s, p, i);
    assert s[|x|] == c;
    if i + |p| <= |x| {
      assert s[i..i + |p|] == x[i..i + |p|];
      assert OccursAt(x, p, i);
    } else {
      assert s[i..i + |p|] == y[i - |x| - 1..i - |x| - 1 + |p|];
      assert OccursAt(y, p, i - |x| - 1);
    }
  }

  /** The character `m` places into an occurrence of `p` is `p[m]`. */
  lemma OccursChar(s: string, p: string, i: nat, m: nat)
    requires OccursAt(s, p, i) && m < |p|
    ensures s[i + m] == p[m]
  {
    assert s[i..i + |p|][m] == s[i + m];
  }

  /** Every character inside an occurrence of `p` is a character of `p`. */
  lemma OccurrenceChars(s: string, p: string, i: nat)
    requires OccursAt(s, p, i)
    ensures forall k :: i <= k < i + |p| ==> s[k] in p
  {
    forall k | i <= k < i + |p| ensures s[k] in p {
      assert s[i..i + |p|][k - i] == s[k];
    }
  }

  /** Whatever a suffix contains, the whole string contains. */
  lemma ContainsInSuffix(s: string, k: nat, p: string)
    requires k <= |s| && Contains(s[k..], p)
    ensures Contains(s, p)
  {
    var i :| 0 <= i <= |s[k..]| && OccursAt(s[k..], p, i);
    assert s[k + i..k + i + |p|] == s[k..][i..i + |p|];
    assert OccursAt(s, p, k + i);
  }

  /** Whatever a prefix contains, the whole string contains. */
  lemma ContainsInPrefix(s: string, k: nat, p: string)
    requires k <= |s| && Contains(s[..k], p)
    ensures Contains(s, p)
  {
    var i :| 0 <= i <= k && OccursAt(s[..k], p, i);
    assert s[i..i + |p|] == s[..k][i..i + |p|];
    assert OccursAt(s, p, i);
  }

  /** A non-empty stripped text starts with a character that is no space. */
  lemma StripStartsClean(x: string)
    requires Strip(x) != ""
    ensures !IsPySpace(Strip(x)[0])
  {
    var a := TrimStart(x, IsPySpace);
    assert Strip(x) == TrimEnd(a, IsPySpace);
    assert Strip(x)[0] == a[0];
  }

  /** A text that starts and ends with no space is its own strip. */
  lemma StripUnchanged(x: string)
    requires x != [] && !IsPySpace(x[0]) && !IsPySpace(x[|x| - 1])
    ensures Strip(x) == x
  {
    assert TrimStart(x, IsPySpace) == x;
    assert TrimEnd(x, IsPySpace) == x;
  }

  /** A text ending with a non-space character keeps that character last when stripped. */
  lemma StripKeepsLast(s: string)
    requires s != [] && !IsPySpace(s[|s| - 1])
    ensures Strip(s) != [] && Strip(s)[|Strip(s)| - 1] == s[|s| - 1]
  {
    var a := TrimStart(s, IsPySpace);
    assert a != [];
    assert a == s[|s| - |a|..];
    assert a[|a| - 1] == s[|s| - 1];
    assert TrimEnd(a, IsPySpace) == a;
  }

  /** A trimmed text is a middle part of the text with only trimmed characters around it. */
  lemma TrimParts(s: string, ws: char -> bool) returns (lead: nat)
    ensures var t := TrimEnd(TrimStart(s, ws), ws);
      && lead + |t| <= |s| && s[lead..lead + |t|] == t
      && (forall i :: 0 <= i < lead ==> ws(s[i]))
      && (forall i :: lead + |t| <= i < |s| ==> ws(s[i]))
  {
    var a := TrimStart(s, ws);
    lead := |s| - |a|;
    var t := TrimEnd(a, ws);
    assert a == s[lead..];
    forall i | lead + |t| <= i < |s| ensures ws(s[i]) {
      assert s[i] == a[i - lead];
    }
  }

  /** Trimming `core` surrounded by trimmed characters gives `core`, when `core` begins and ends with kept ones. */
  lemma TrimAround(s: string, ws: char -> bool, lead: nat, core: string)
    requires lead + |core| <= |s| && s[lead..lead + |core|] == core && core != []
    requires !ws(core[0]) && !ws(core[|core| - 1])
    requires forall i :: 0 <= i < lead ==> ws(s[i])
    requires forall i :: lead + |core| <= i < |s| ==> ws(s[i])
    ensures TrimEnd(TrimStart(s, ws), ws) == core
  {
    assert s[lead] == core[0];
    TrimStartPrefix(s, ws, lead);
    TrimEndOfSlice(s, ws, lead, core);
  }

  lemma TrimEndOfSlice(s: string, ws: char -> bool, lead: nat, core: string)
    requires lead + |core| <= |s| && s[lead..lead + |core|] == core && core != []
    requires !ws(core[|core| - 1])
    requires forall i :: lead + |core| <= i < |s| ==> ws(s[i])
    ensures TrimEnd(s[lead..], ws) == core
  {
    var t := s[lead..];
    assert t[|core| - 1] == core[|core| - 1];
    forall i | |core| <= i < |t| ensures ws(t[i]) {
      assert t[i] == s[lead + i];
    }
    TrimEndSuffix(t, ws, |core|);
    assert t[..|core|] == core;
  }

  /** A run of `lead` trimmed characters before a kept one is exactly what TrimStart drops. */
  lemma {:induction false} TrimStartPrefix(s: string, ws: char -> bool, lead: nat)
    requires lead < |s| && !ws(s[lead]) && forall i :: 0 <= i < lead ==> ws(s[i])
    ensures TrimStart(s, ws) == s[lead..]
    decreases lead
  {
    if lead > 0 {
      assert ws(s[0]);
      forall i | 0 <= i < lead - 1 ensures ws(s[1..][i]) {
        assert s[1..][i] == s[i + 1];
      }
      TrimStartPrefix(s[1..], ws, lead - 1);
      assert s[1..][lead - 1..] == s[lead..];
    }
  }

  /** A run of trimmed characters after a kept one at `n - 1` is exactly what TrimEnd drops. */
  lemma {:induction false} TrimEndSuffix(s: string, ws: char -> bool, n: nat)
    requires 0 < n <= |s| && !ws(s[n - 1]) && forall i :: n <= i < |s| ==> ws(s[i])
    ensures TrimEnd(s, ws) == s[..n]
    decreases |s| - n
  {
    if |s| > n {
      assert ws(s[|s| - 1]);
      var s' := s[..|s| - 1];
      forall i | n <= i < |s'| ensures ws(s'[i]) {
        assert s'[i] == s[i];
      }
      TrimEndSuffix(s', ws, n);
      assert s'[..n] == s[..n];
    }
  }

  /** The stripped text is a slice of the text. */
  lemma StripIsSlice(s: string)
    ensures |s| - |TrimStart(s, IsPySpace)| + |Strip(s)| <= |s|
    ensures Strip(s) == s[|s| - |TrimStart(s, IsPySpace)|..][..|Strip(s)|]
  {
    var a := TrimStart(s, IsPySpace);
    assert a == s[|s| - |a|..];
    var b := TrimEnd(a, IsPySpace);
    assert b == a[..|b|];
  }

  /** What a slice contains, the whole text contains. */
  lemma ContainsInSlice(s: string, i: nat, n: nat, p: string)
    requires i + n <= |s| && Contains(s[i..][..n], p)
    ensures Contains(s, p)
  {
    ContainsInPrefix(s[i..], n, p);
    ContainsInSuffix(s, i, p);
  }

  /** What the left operand of a concatenation contains, the concatenation contains. */
  lemma ContainsLeft(a: string, b: string, p: string)
    requires Contains(a, p)
    ensures Contains(a + b, p)
  {
    assert (a + b)[..|a|] == a;
    ContainsInPrefix(a + b, |a|, p);
  }

  /** Splitting at the first separator peels off the text before it. */
  lemma {:induction false} SplitFirst(p: string, sep: char, q: string)
    requires sep !in p
    ensures Split(p + [sep] + q, sep) == [p] + Split(q, sep)
  {
    var s := p + [sep] + q;
    if p == [] {
      assert s[1..] == q;
    } else {
      assert s[1..] == p[1..] + [sep] + q;
      SplitFirst(p[1..], sep, q);
      assert [p[0]] + p[1..] == p;
    }
  }

  /** A string without the separator is one piece. */
  lemma {:induction false} SplitWhole(s: string, sep: char)
    requires sep !in s
    ensures Split(s, sep) == [s]
  {
    if s != [] {
      SplitWhole(s[1..], sep);
      assert [s[0]] + s[1..] == s;
    }
  }

  /** ASCII lower-casing is idempotent. */
  lemma AsciiLowerIdempotent(s: string)
    ensures AsciiLower(AsciiLower(s)) == AsciiLower(s)
  {
  }

  /**
   * Lower-casing cannot create an occurrence of a pattern that has no ASCII
   * upper-case letters and no ASCII lower-case letters.
   */
  lemma ContainsUnderLower(s: string, p: string)
    requires forall k :: 0 <= k < |p| ==> !('a' <= p[k] <= 'z') && !('A' <= p[k] <= 'Z')
    ensures Contains(AsciiLower(s), p) <==> Contains(s, p)
  {
    var l := AsciiLower(s);
    if Contains(l, p) {
      var i :| 0 <= i <= |l| && OccursAt(l, p, i);
      forall k | 0 <= k < |p| ensures s[i + k] == p[k] {
        assert l[i..i + |p|][k] == p[k];
      }
      assert s[i..i + |p|] == p;
      assert OccursAt(s, p, i);
    }
    if Contains(s, p) {
      var i :| 0 <= i <= |s| && OccursAt(s, p, i);
      forall k | 0 <= k < |p| ensures l[i + k] == p[k] {
        assert s[i..i + |p|][k] == p[k];
      }
      assert l[i..i + |p|] == p;
      assert OccursAt(l, p, i);
    }
  }
}
