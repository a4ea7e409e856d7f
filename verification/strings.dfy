/**
 * String helpers with the semantics of the JavaScript and Python built-ins the
 * source calls: `split`/`join` with a one-character separator, `startsWith`,
 * Latin-1 lower-casing, Python's `strip()` and `split()` and integer formatting.
 */
module Strings {

  predicate StartsWith(s: string, prefix: string) {
    |prefix| <= |s| && s[..|prefix|] == prefix
  }

  predicate EndsWith(s: string, suffix: string) {
    |suffix| <= |s| && s[|s| - |suffix|..] == suffix
  }

  /** `s.split(sep)`: never empty, and no part contains the separator. */
  function Split(s: string, sep: char): (parts: seq<string>)
    ensures |parts| >= 1
    ensures forall i :: 0 <= i < |parts| ==> sep !in parts[i]
  {
    if s == [] then [""]
    else
      var rest := Split(s[1..], sep);
      if s[0] == sep then [""] + rest
      else [[s[0]] + rest[0]] + rest[1..]
  }

  /** `parts.join(sep)`. */
  function Join(parts: seq<string>, sep: char): string {
    if |parts| == 0 then ""
    else if |parts| == 1 then parts[0]
    else parts[0] + [sep] + Join(parts[1..], sep)
  }

  lemma {:induction false} SplitNoSeparator(s: string, sep: char)
    requires sep !in s
    ensures Split(s, sep) == [s]
  {
    if s != [] {
      assert s[0] in s;
      SplitNoSeparator(s[1..], sep);
      assert [s[0]] + s[1..] == s;
    }
  }

  /** Splitting at a separator splits the two sides independently. */
  lemma {:induction false} SplitAppend(a: string, sep: char, b: string)
    ensures Split(a + [sep] + b, sep) == Split(a, sep) + Split(b, sep)
  {
    if a == [] {
      assert a + [sep] + b == [sep] + b;
      assert ([sep] + b)[1..] == b;
    } else {
      var a' := a[1..];
      assert (a + [sep] + b)[1..] == a' + [sep] + b;
      assert (a + [sep] + b)[0] == a[0];
      SplitAppend(a', sep, b);
    }
  }

  lemma {:induction false} JoinAppend(parts: seq<string>, sep: char, last: string)
    requires |parts| >= 1
    ensures Join(parts + [last], sep) == Join(parts, sep) + [sep] + last
  {
    if |parts| == 1 {
      assert parts + [last] == [parts[0], last];
    } else {
      assert (parts + [last])[1..] == parts[1..] + [last];
      JoinAppend(parts[1..], sep, last);
    }
  }

  /** `s.split(sep).join(sep) == s`. */
  lemma {:induction false} JoinSplit(s: string, sep: char)
    ensures Join(Split(s, sep), sep) == s
  {
    if s != [] {
      JoinSplit(s[1..], sep);
      var rest := Split(s[1..], sep);
      if s[0] != sep {
        if |rest| > 1 {
          assert ([[s[0]] + rest[0]] + rest[1..])[1..] == rest[1..];
        }
      }
    }
  }

  /** Dropping the last part of a split and joining again gives back everything before the last separator. */
  lemma SplitAppendDropLast(a: string, sep: char, name: string)
    requires sep !in name
    ensures var parts := Split(a + [sep] + name, sep); Join(parts[..|parts| - 1], sep) == a
  {
    SplitAppend(a, sep, name);
    SplitNoSeparator(name, sep);
    var parts := Split(a + [sep] + name, sep);
    assert parts[..|parts| - 1] == Split(a, sep);
    JoinSplit(a, sep);
  }

  /** A string splits into several parts exactly when it contains the separator. */
  lemma {:induction false} SplitSeveralParts(s: string, sep: char)
    ensures sep in s <==> |Split(s, sep)| > 1
  {
    if s != [] {
      SplitSeveralParts(s[1..], sep);
      assert s == [s[0]] + s[1..];
    }
  }

  /** Joining all parts but the last gives everything before the last separator, or "" when there is none. */
  lemma JoinInitSplit(s: string, sep: char)
    ensures var parts := Split(s, sep);
      && (sep !in s ==> Join(parts[..|parts| - 1], sep) == "")
      && (sep in s ==> s == Join(parts[..|parts| - 1], sep) + [sep] + parts[|parts| - 1])
  {
    var parts := Split(s, sep);
    SplitSeveralParts(s, sep);
    if sep in s {
      assert parts == parts[..|parts| - 1] + [parts[|parts| - 1]];
      JoinAppend(parts[..|parts| - 1], sep, parts[|parts| - 1]);
      JoinSplit(s, sep);
    }
  }

  /** The first part of a split starts with a prefix that holds no separator. */
  lemma {:induction false} SplitFirstPart(x: string, y: string, sep: char)
    requires sep !in x
    ensures Split(x + y, sep)[0] == x + Split(y, sep)[0]
  {
    if x != [] {
      assert x[0] in x;
      assert (x + y)[1..] == x[1..] + y;
      SplitFirstPart(x[1..], y, sep);
      assert [x[0]] + x[1..] == x;
    } else {
      assert x + y == y;
    }
  }

  /** A capital letter of Latin-1: 'A'..'Z' and 'À'..'Þ' except '×'. */
  predicate IsUpperLatin1(c: char) {
    ('A' <= c <= 'Z') || ('\U{C0}' <= c <= '\U{DE}' && c != '\U{D7}')
  }

  /** `toLowerCase` / `lower()` on Latin-1: a capital maps to its small letter, 32 code points higher. */
  function LowerChar(c: char): (r: char)
    ensures !IsUpperLatin1(r)
    ensures IsUpperLatin1(c) ==> r as int == c as int + 32
    ensures !IsUpperLatin1(c) ==> r == c
  {
    if IsUpperLatin1(c) then (c as int + 32) as char else c
  }

  function Lower(s: string): (r: string)
    ensures |r| == |s|
  {
    seq(|s|, i requires 0 <= i < |s| => LowerChar(s[i]))
  }

  /** Lower-casing maps every character by itself and leaves no capital. */
  lemma LowerHasNoCapitals(s: string)
    ensures forall i :: 0 <= i < |s| ==> Lower(s)[i] == LowerChar(s[i]) && !IsUpperLatin1(Lower(s)[i])
  {
  }

  /** Lower-casing leaves a string without capitals as it is. */
  lemma LowerWithoutCapitals(s: string)
    requires forall i :: 0 <= i < |s| ==> !IsUpperLatin1(s[i])
    ensures Lower(s) == s
  {
  }

  /** Python's `str.isspace` restricted to Latin-1. */
  predicate IsSpace(c: char) {
    c == ' ' || ('\t' <= c <= '\r') || ('\U{1C}' <= c <= '\U{1F}') || c == '\U{85}' || c == '\U{A0}'
  }

  function TrimLeft(s: string): (r: string)
    ensures |r| <= |s| && s[|s| - |r|..] == r
    ensures r == [] || !IsSpace(r[0])
  {
    if s != [] && IsSpace(s[0]) then TrimLeft(s[1..]) else s
  }

  function TrimRight(s: string): (r: string)
    ensures |r| <= |s| && s[..|r|] == r
    ensures r == [] || !IsSpace(r[|r| - 1])
  {
    if s != [] && IsSpace(s[|s| - 1]) then TrimRight(s[..|s| - 1]) else s
  }

  /** Python's `str.strip()`. */
  function Strip(s: string): string {
    TrimRight(TrimLeft(s))
  }

  /** The maximal runs of non-space characters, as Python's `str.split()` with no argument returns them. */
  function Words(s: string): (ws: seq<string>)
    ensures forall i :: 0 <= i < |ws| ==> ws[i] != [] && forall j :: 0 <= j < |ws[i]| ==> !IsSpace(ws[i][j]) && ws[i][j] in s
  {
    if s == [] then []
    else if IsSpace(s[0]) then Words(s[1..])
    else
      var n := WordLength(s);
      [s[..n]] + Words(s[n..])
  }

  function WordLength(s: string): (n: nat)
    ensures n <= |s|
    ensures s != [] && !IsSpace(s[0]) ==> n > 0
    ensures forall k :: 0 <= k < n ==> !IsSpace(s[k])
  {
    if s == [] || IsSpace(s[0]) then 0 else 1 + WordLength(s[1..])
  }

  function DigitChar(d: nat): char
    requires d < 10
  {
    ('0' as int + d) as char
  }

  function NatToString(n: nat): string {
    if n < 10 then [DigitChar(n)] else NatToString(n / 10) + [DigitChar(n % 10)]
  }

  /** `str(i)` / the decimal formatting of an f-string. */
  function IntToString(i: int): string {
    if i < 0 then "-" + NatToString(-i) else NatToString(i)
  }

  /**
   * Concatenation laws, stated on plain strings. Calling them on strings built
   * from literals hands the solver the equation directly, instead of leaving it
   * to compare the literals character by character.
   */
  lemma ConcatAssoc(a: string, b: string, c: string)
    ensures (a + b) + c == a + (b + c)
  {
  }

  lemma ConcatParts(a: string, b: string)
    ensures |a + b| == |a| + |b|
    ensures (a + b)[..|a|] == a && (a + b)[|a|..] == b
    ensures StartsWith(a + b, a) && EndsWith(a + b, b)
  {
  }

  lemma ConcatEmpty(e: string, b: string)
    requires e == ""
    ensures e + b == b && b + e == b
  {
  }

  lemma FirstOf(a: string, b: string)
    requires |a| > 0
    ensures (a + b)[0] == a[0]
  {
  }

  lemma Infix(a: string, b: string, c: string)
    ensures |a + (b + c)| == |a| + |b| + |c|
    ensures (a + (b + c))[|a|..|a| + |b|] == b
  {
    assert (a + (b + c))[|a|..] == b + c;
  }

  lemma FirstCharDiffers(s: string, prefix: string)
    requires |s| > 0 && |prefix| > 0 && s[0] != prefix[0]
    ensures !StartsWith(s, prefix)
  {
  }
}
