/** The pieces of Python's `str` the reader relies on: `strip()`, `lower()`,
    `startswith`, `endswith` and `split(sep, 1)`. */
module PyStrings {

  /** Python's `str.isspace()` on one character: exactly the characters that
      `str.strip()` with no argument removes. */
  predicate IsSpace(c: char) {
    || ('\t' <= c <= '\r')
    || ('\U{1C}' <= c <= '\U{1F}')
    || c == ' '
    || c == '\U{85}'
    || c == '\U{A0}'
    || c == '\U{1680}'
    || ('\U{2000}' <= c <= '\U{200A}')
    || c == '\U{2028}'
    || c == '\U{2029}'
    || c == '\U{202F}'
    || c == '\U{205F}'
    || c == '\U{3000}'
  }

  predicate AllSpace(s: string) {
    forall i :: 0 <= i < |s| ==> IsSpace(s[i])
  }

  /** Neither end of `s` is whitespace: what `strip()` leaves behind. */
  predicate Stripped(s: string) {
    s == [] || (!IsSpace(s[0]) && !IsSpace(s[|s| - 1]))
  }

  /** `s.lstrip()`. */
  function TrimStart(s: string): string {
    if s != [] && IsSpace(s[0]) then TrimStart(s[1..]) else s
  }

  /** `s.lstrip()` is the suffix of `s` left after its leading whitespace. */
  lemma {:induction false} TrimStartSuffix(s: string)
    ensures |TrimStart(s)| <= |s| && TrimStart(s) == s[|s| - |TrimStart(s)|..]
    ensures AllSpace(s[..|s| - |TrimStart(s)|])
    ensures TrimStart(s) == [] || !IsSpace(TrimStart(s)[0])
  {
    if s != [] && IsSpace(s[0]) {
      TrimStartSuffix(s[1..]);
      assert s[..|s| - |TrimStart(s)|] == [s[0]] + s[1..][..|s| - 1 - |TrimStart(s)|];
    }
  }

  /** `s.rstrip()`. */
  function TrimEnd(s: string): string {
    if s != [] && IsSpace(s[|s| - 1]) then TrimEnd(s[..|s| - 1]) else s
  }

  /** `s.rstrip()` is the prefix of `s` left before its trailing whitespace. */
  lemma {:induction false} TrimEndPrefix(s: string)
    ensures |TrimEnd(s)| <= |s| && TrimEnd(s) == s[..|TrimEnd(s)|]
    ensures AllSpace(s[|TrimEnd(s)|..])
    ensures TrimEnd(s) == [] || !IsSpace(TrimEnd(s)[|TrimEnd(s)| - 1])
  {
    if s != [] && IsSpace(s[|s| - 1]) {
      var init := s[..|s| - 1];
      TrimEndPrefix(init);
      assert s[|TrimEnd(s)|..] == init[|TrimEnd(s)|..] + [s[|s| - 1]];
    }
  }

  /** How many leading whitespace characters `strip()` drops from `s`. */
  function Lead(s: string): (n: nat)
    ensures n <= |s|
  {
    TrimStartSuffix(s);
    |s| - |TrimStart(s)|
  }

  /** `s.strip()`: `s` with whitespace removed at both ends. */
  function Strip(s: string): (r: string)
    ensures Stripped(r)
  {
    TrimStartSuffix(s);
    TrimEndPrefix(TrimStart(s));
    TrimEnd(TrimStart(s))
  }

  /** `s.strip()` is the middle slice of `s` whose surroundings are all whitespace. */
  lemma StripSlice(s: string)
    ensures Lead(s) + |Strip(s)| <= |s| && Strip(s) == s[Lead(s)..Lead(s) + |Strip(s)|]
    ensures AllSpace(s[..Lead(s)]) && AllSpace(s[Lead(s) + |Strip(s)|..])
  {
    TrimStartSuffix(s);
    TrimEndPrefix(TrimStart(s));
    var t := TrimStart(s);
    var r := TrimEnd(t);
    var i := |s| - |t|;
    assert t == s[i..];
    assert s[i + |r|..] == t[|r|..];
  }

  /** A string that is already stripped is left alone. */
  lemma StripStripped(s: string)
    requires Stripped(s)
    ensures Strip(s) == s
  {
    if s != [] {
      TrimStartSuffix(s);
      assert TrimStart(s) == s;
      assert TrimEnd(s) == s;
    }
  }

  /** `s.strip()` is empty exactly when `s` is blank. */
  lemma StripEmptyIffBlank(s: string)
    ensures Strip(s) == [] <==> AllSpace(s)
  {
    StripSlice(s);
    var i := Lead(s);
    if Strip(s) == [] {
      forall k | 0 <= k < |s| ensures IsSpace(s[k]) {
        if k < i {
          assert s[..i][k] == s[k];
        } else {
          assert s[i..][k - i] == s[k];
        }
      }
    }
  }

  /** Every character outside `s[Lead(s)..Lead(s) + |Strip(s)|]` is whitespace. */
  lemma OutsideStripIsSpace(s: string, k: int)
    requires 0 <= k < |s|
    requires k < Lead(s) || Lead(s) + |Strip(s)| <= k
    ensures IsSpace(s[k])
  {
    StripSlice(s);
    var i, r := Lead(s), Strip(s);
    if k < i {
      assert s[..i][k] == s[k];
    } else {
      assert s[i + |r|..][k - i - |r|] == s[k];
    }
  }

  /** A character that is not whitespace occurs in `s` exactly when it occurs in `s.strip()`. */
  lemma InStripIff(s: string, c: char)
    requires !IsSpace(c)
    ensures c in Strip(s) <==> c in s
  {
    StripSlice(s);
    var r := Strip(s);
    var i := Lead(s);
    if c in s {
      var p :| 0 <= p < |s| && s[p] == c;
      if p < i || i + |r| <= p {
        OutsideStripIsSpace(s, p);
      }
      assert r[p - i] == c;
    }
    if c in r {
      var q :| 0 <= q < |r| && r[q] == c;
      assert s[i + q] == c;
    }
  }

  /** `str.lower()` on one character. Only `A`..`Z` are mapped: no other
      character lower-cases to one of the ASCII letters the reader compares with. */
  function LowerChar(c: char): char {
    if 'A' <= c <= 'Z' then (c as int + 32) as char else c
  }

  function Lower(s: string): (r: string)
    ensures |r| == |s|
    ensures forall i :: 0 <= i < |s| ==> r[i] == LowerChar(s[i])
  {
    if s == [] then [] else [LowerChar(s[0])] + Lower(s[1..])
  }

  predicate StartsWith(s: string, prefix: string) {
    |prefix| <= |s| && s[..|prefix|] == prefix
  }

  predicate EndsWith(s: string, suffix: string) {
    |suffix| <= |s| && s[|s| - |suffix|..] == suffix
  }

  /** Position of the first occurrence of `c` in `s`. */
  function FirstIndex(s: string, c: char): (i: nat)
    requires c in s
    ensures i < |s| && s[i] == c && c !in s[..i]
  {
    if s[0] == c then 0
    else
      var j := FirstIndex(s[1..], c);
      assert s[..j + 1] == [s[0]] + s[1..][..j];
      j + 1
  }

  /** `s.split(sep, 1)` on a string that holds `sep`: the text before the first
      `sep` and the text after it. */
  function SplitOnce(s: string, sep: char): (parts: (string, string))
    requires sep in s
    ensures s == parts.0 + [sep] + parts.1
    ensures sep !in parts.0
  {
    var i := FirstIndex(s, sep);
    assert s == s[..i] + [sep] + s[i + 1..];
    (s[..i], s[i + 1..])
  }

  /** The split point is the first separator: any way of writing `s` as
      `head + [sep] + tail` with no `sep` in `head` is the split. */
  lemma {:induction false} SplitOnceUnique(s: string, sep: char, head: string, tail: string)
    requires s == head + [sep] + tail
    requires sep !in head
    ensures sep in s && SplitOnce(s, sep) == (head, tail)
  {
    assert s[|head|] == sep;
    var parts := SplitOnce(s, sep);
    var i := |parts.0|;
    assert parts.0 == s[..i] == head;
    assert parts.1 == s[i + 1..] == tail;
  }
}
