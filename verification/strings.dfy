/** The pieces of Python's `str` behaviour the documentation generator relies on:
    `isspace`, `strip`, `lower`, `startswith`, `endswith` and `rfind`. */
module Strings {

  /** Python's `str.isspace` for one character: the Unicode characters whose
      bidirectional class is WS, B or S, or whose category is Zs. */
  predicate IsSpace(c: char)
  {
    || c == ' '
    || ('\t' <= c <= '\r')
    || ('\U{1c}' <= c <= '\U{1f}')
    || c == '\U{85}' || c == '\U{a0}' || c == '\U{1680}'
    || ('\U{2000}' <= c <= '\U{200a}')
    || c == '\U{2028}' || c == '\U{2029}' || c == '\U{202f}' || c == '\U{205f}'
    || c == '\U{3000}'
  }

  /** The number of whitespace characters at the front of `s`. */
  function LeadingSpaces(s: string): (n: nat)
    ensures n <= |s|
    ensures forall k :: 0 <= k < n ==> IsSpace(s[k])
    ensures n < |s| ==> !IsSpace(s[n])
  {
    if |s| == 0 || !IsSpace(s[0]) then 0 else 1 + LeadingSpaces(s[1..])
  }

  /** The number of whitespace characters at the back of `s`. */
  function TrailingSpaces(s: string): (n: nat)
    ensures n <= |s|
    ensures forall k :: |s| - n <= k < |s| ==> IsSpace(s[k])
    ensures n < |s| ==> !IsSpace(s[|s| - n - 1])
  {
    if |s| == 0 || !IsSpace(s[|s| - 1]) then 0 else 1 + TrailingSpaces(s[..|s| - 1])
  }

  /** True iff `s` neither starts nor ends with whitespace. */
  predicate Trimmed(s: string)
  {
    |s| == 0 || (!IsSpace(s[0]) && !IsSpace(s[|s| - 1]))
  }

  /** True iff `r` is `s` with some whitespace removed from each end. */
  predicate StripsTo(s: string, r: string)
  {
    exists i, j :: 0 <= i <= j <= |s| && s[i..j] == r
      && (forall k :: 0 <= k < i ==> IsSpace(s[k]))
      && (forall k :: j <= k < |s| ==> IsSpace(s[k]))
  }

  /** Python's `str.strip()` with no argument: `s` without its leading and
      trailing whitespace, and nothing else changed. */
  function Strip(s: string): (r: string)
    ensures Trimmed(r)
    ensures StripsTo(s, r)
    ensures |r| <= |s|
  {
    var i := LeadingSpaces(s);
    if i == |s| then
      assert s[|s|..|s|] == [];
      []
    else
      var j := |s| - TrailingSpaces(s);
      assert i < j by {
        assert !IsSpace(s[i]);
      }
      s[i..j]
  }

  /** `"".join(parts)`: the pieces of an f-string, in order. */
  function Concat(parts: seq<string>): string
  {
    if |parts| == 0 then [] else parts[0] + Concat(parts[1..])
  }

  /** Python's `str.startswith` with one string argument. */
  predicate StartsWith(s: string, prefix: string)
  {
    |prefix| <= |s| && s[..|prefix|] == prefix
  }

  /** Python's `str.endswith` with one string argument. */
  predicate EndsWith(s: string, suffix: string)
  {
    |suffix| <= |s| && s[|s| - |suffix|..] == suffix
  }

  /** Python's `str.rfind` for one character: the index of the last `c` in
      `s`, or -1 when there is none. */
  function LastIndexOf(s: string, c: char): (r: int)
    ensures -1 <= r < |s|
    ensures r >= 0 ==> s[r] == c
    ensures forall k :: r < k < |s| ==> s[k] != c
  {
    if |s| == 0 then -1
    else if s[|s| - 1] == c then |s| - 1
    else LastIndexOf(s[..|s| - 1], c)
  }

  /** An ASCII upper-case letter. */
  predicate IsUpper(c: char)
  {
    'A' <= c <= 'Z'
  }

  /** Python's `str.lower` on one ASCII character; other characters are kept. */
  function LowerChar(c: char): (r: char)
    ensures !IsUpper(r)
    ensures IsUpper(c) ==> r as int == c as int + 32
    ensures !IsUpper(c) ==> r == c
  {
    if IsUpper(c) then (c as int + 32) as char else c
  }

  /** Python's `str.lower`, restricted to the ASCII letters. */
  function Lower(s: string): (r: string)
    ensures |r| == |s|
    ensures forall i :: 0 <= i < |s| ==> r[i] == LowerChar(s[i])
  {
    seq(|s|, i requires 0 <= i < |s| => LowerChar(s[i]))
  }

  /** Stripping a second time changes nothing. */
  lemma StripIdempotent(s: string)
    ensures Strip(Strip(s)) == Strip(s)
  {
    TrimmedStripsToItself(Strip(s));
  }

  /** A string that is already trimmed is its own strip. */
  lemma TrimmedStripsToItself(s: string)
    requires Trimmed(s)
    ensures Strip(s) == s
  {
    if |s| > 0 {
      assert LeadingSpaces(s) == 0;
      assert TrailingSpaces(s) == 0;
      assert s[0..|s|] == s;
    }
  }

  /** Strip is fully determined by its contract: the only trimmed string that
      `s` strips to is `Strip(s)`. */
  lemma StripUnique(s: string, r: string)
    requires Trimmed(r) && StripsTo(s, r)
    ensures r == Strip(s)
  {
    var i, j :| 0 <= i <= j <= |s| && s[i..j] == r
      && (forall k :: 0 <= k < i ==> IsSpace(s[k]))
      && (forall k :: j <= k < |s| ==> IsSpace(s[k]));
    var n := LeadingSpaces(s);
    var m := TrailingSpaces(s);
    if i == j {
      assert r == [];
      assert n == |s|;
    } else {
      assert s[i] == r[0] && s[j - 1] == r[|r| - 1];
      assert n == i;
      assert m == |s| - j;
    }
  }
}
