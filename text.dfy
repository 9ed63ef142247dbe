/** The handful of Python string operations the script relies on
    (`str.strip`, `str.lower`, `str.startswith`, `str.endswith`, `str.split`),
    over `string == seq<char>`. */
module Text {

  /** Python's `str.isspace()` set: the characters `str.strip()` removes when
      called without arguments. */
  const Whitespace: set<char> := {' ', '\t', '\n', '\U{B}', '\U{C}', '\r', '\U{1C}', '\U{1D}', '\U{1E}', '\U{1F}',
    '\U{85}', '\U{A0}', '\U{1680}', '\U{2000}', '\U{2001}', '\U{2002}', '\U{2003}', '\U{2004}', '\U{2005}',
    '\U{2006}', '\U{2007}', '\U{2008}', '\U{2009}', '\U{200A}', '\U{2028}', '\U{2029}', '\U{202F}', '\U{205F}', '\U{3000}'}

  predicate IsSpace(c: char)
  {
    c in Whitespace
  }

  /** How many whitespace characters `s` starts with: `str.lstrip()` drops
      exactly these. */
  function LeadingSpaces(s: string): (n: nat)
    ensures n <= |s|
    ensures forall i :: 0 <= i < n ==> IsSpace(s[i])
    ensures n < |s| ==> !IsSpace(s[n])
  {
    if s != [] && IsSpace(s[0]) then 1 + LeadingSpaces(s[1..]) else 0
  }

  /** How many whitespace characters `s` ends with: `str.rstrip()` drops
      exactly these. */
  function TrailingSpaces(s: string): (n: nat)
    ensures n <= |s|
    ensures forall i :: |s| - n <= i < |s| ==> IsSpace(s[i])
    ensures n < |s| ==> !IsSpace(s[|s| - n - 1])
  {
    if s != [] && IsSpace(s[|s| - 1]) then 1 + TrailingSpaces(s[..|s| - 1]) else 0
  }

  /** `s.strip()`: `s` without its leading and trailing whitespace; a
      non-empty result neither starts nor ends with whitespace. */
  function Strip(s: string): (r: string)
    ensures |r| <= |s|
    ensures r != [] ==> !IsSpace(r[0]) && !IsSpace(r[|r| - 1])
  {
    var lead := LeadingSpaces(s);
    if lead == |s| then []
    else
      var trail := TrailingSpaces(s);
      assert lead < |s| - trail;
      s[lead..|s| - trail]
  }

  /** What `Strip` removes: the result is the slice of `s` after the leading
      whitespace, and everything outside that slice is whitespace. */
  lemma StripShape(s: string)
    ensures LeadingSpaces(s) + |Strip(s)| <= |s|
    ensures Strip(s) == s[LeadingSpaces(s)..LeadingSpaces(s) + |Strip(s)|]
    ensures forall i :: 0 <= i < LeadingSpaces(s) ==> IsSpace(s[i])
    ensures forall i :: LeadingSpaces(s) + |Strip(s)| <= i < |s| ==> IsSpace(s[i])
  {
  }

  /** The strip is empty exactly when `s` is all whitespace. */
  lemma StripEmptyIff(s: string)
    ensures Strip(s) == [] <==> forall i :: 0 <= i < |s| ==> IsSpace(s[i])
  {
  }

  /** Stripping twice is stripping once. */
  lemma StripIdempotent(s: string)
    ensures Strip(Strip(s)) == Strip(s)
  {
    var r := Strip(s);
    if r != [] {
      assert LeadingSpaces(r) == 0 && TrailingSpaces(r) == 0;
      assert r[0..|r|] == r;
    }
  }

  /** A string whose first character is not whitespace keeps that character
      at the head of its strip. */
  lemma StripKeepsNonSpaceHead(s: string)
    requires s != [] && !IsSpace(s[0])
    ensures Strip(s) != [] && Strip(s)[0] == s[0]
  {
    assert LeadingSpaces(s) == 0;
  }

  function LowerChar(c: char): char
  {
    if 'A' <= c <= 'Z' then (c as int + 32) as char else c
  }

  /** `s.lower()`, restricted to ASCII letters: character by character, with
      the length kept. */
  function Lower(s: string): (r: string)
    ensures |r| == |s|
    ensures forall i :: 0 <= i < |s| ==> r[i] == LowerChar(s[i])
  {
    if s == [] then [] else [LowerChar(s[0])] + Lower(s[1..])
  }

  /** Lowercasing is idempotent, so a lowercased token compares like the token
      itself once lowered again. */
  lemma LowerIdempotent(s: string)
    ensures Lower(Lower(s)) == Lower(s)
  {
    assert forall i :: 0 <= i < |s| ==> Lower(Lower(s))[i] == Lower(s)[i];
  }

  /** `s.startswith(p)`. */
  predicate StartsWith(s: string, p: string)
  {
    |p| <= |s| && s[..|p|] == p
  }

  /** `s.endswith(x)`. */
  predicate EndsWith(s: string, x: string)
  {
    |x| <= |s| && s[|s| - |x|..] == x
  }

  /** `s.split(sep)` for a one-character separator: always at least one piece,
      and no piece contains the separator. */
  function Split(s: string, sep: char): (r: seq<string>)
    ensures |r| >= 1
    ensures forall p :: p in r ==> sep !in p
    ensures |r| <= |s| + 1
  {
    if s == [] then [""]
    else
      var rest := Split(s[1..], sep);
      if s[0] == sep then [""] + rest
      else
        assert rest[0] in rest;
        assert forall p :: p in rest[1..] ==> p in rest;
        [[s[0]] + rest[0]] + rest[1..]
  }

  /** `sep.join(parts)`, the inverse of `Split`. */
  function JoinWith(parts: seq<string>, sep: char): string
    requires |parts| >= 1
  {
    if |parts| == 1 then parts[0] else parts[0] + [sep] + JoinWith(parts[1..], sep)
  }

  /** Splitting loses nothing: joining the pieces back with the separator
      gives the original string. */
  lemma {:induction false} JoinSplit(s: string, sep: char)
    ensures JoinWith(Split(s, sep), sep) == s
  {
    if s != [] {
      JoinSplit(s[1..], sep);
      var rest := Split(s[1..], sep);
      if s[0] != sep {
        if |rest| == 1 {
          assert Split(s, sep) == [[s[0]] + rest[0]];
        } else {
          assert JoinWith(rest, sep) == rest[0] + [sep] + JoinWith(rest[1..], sep);
          assert [s[0]] + JoinWith(rest, sep) == s;
        }
      }
    }
  }

  /** Splitting is exact: joining separator-free pieces and splitting again
      gives back the same pieces. */
  lemma {:induction false} SplitJoin(parts: seq<string>, sep: char)
    requires |parts| >= 1
    requires forall p :: p in parts ==> sep !in p
    ensures Split(JoinWith(parts, sep), sep) == parts
  {
    if |parts| == 1 {
      SplitNoSep(parts[0], sep);
    } else {
      assert forall p :: p in parts[1..] ==> p in parts;
      SplitJoin(parts[1..], sep);
      SplitPrefix(parts[0], JoinWith(parts[1..], sep), sep);
    }
  }

  /** A string without the separator splits into itself. */
  lemma {:induction false} SplitNoSep(s: string, sep: char)
    requires sep !in s
    ensures Split(s, sep) == [s]
  {
    if s != [] {
      assert sep !in s[1..];
      SplitNoSep(s[1..], sep);
      assert [s[0]] + s[1..] == s;
    }
  }

  /** Splitting `p + [sep] + t` for a separator-free `p` puts `p` in front of
      the pieces of `t`. */
  lemma {:induction false} SplitPrefix(p: string, t: string, sep: char)
    requires sep !in p
    ensures Split(p + [sep] + t, sep) == [p] + Split(t, sep)
  {
    if p == [] {
      assert p + [sep] + t == [sep] + t;
      assert ([sep] + t)[1..] == t;
    } else {
      assert sep !in p[1..];
      SplitPrefix(p[1..], t, sep);
      assert (p + [sep] + t)[1..] == p[1..] + [sep] + t;
      assert [p[0]] + p[1..] == p;
    }
  }
}
