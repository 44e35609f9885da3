/**
 * String operations of Python 2 and JavaScript that the workflow's scripts use,
 * stated over `string` (a sequence of Unicode scalar values).
 */
module Text {
  import opened Wrappers

  /**
   * The characters Python 2's argument-less `unicode.strip()` removes: those `unicode.isspace()` accepts in
   * the Unicode 5.2 database of Python 2.7. These are the ASCII controls `\t` to `\r` and `\x1c` to `\x1f`,
   * the space, NEL, NO-BREAK SPACE, and the Unicode space and separator characters.
   */
  const Whitespace: set<char> := set c: char | '\t' <= c <= '\U{3000}' && IsSpace(c)

  /** Membership in `Whitespace`, as ranges of code points. */
  predicate IsSpace(c: char) {
    || '\t' <= c <= '\r' || '\U{1C}' <= c <= ' ' || c == '\U{85}' || c == '\U{A0}'
    || c == '\U{1680}' || c == '\U{180E}' || '\U{2000}' <= c <= '\U{200A}' || c == '\U{2028}' || c == '\U{2029}'
    || c == '\U{202F}' || c == '\U{205F}' || c == '\U{3000}'
  }

  /** `s.lstrip(chars)`: drop the longest prefix made of characters in `cs`. */
  function LStrip(s: string, cs: set<char>): (r: string)
    ensures |r| <= |s| && r == s[|s| - |r|..]
    ensures forall k :: 0 <= k < |s| - |r| ==> s[k] in cs
    ensures r == [] || r[0] !in cs
  {
    if s != [] && s[0] in cs then LStrip(s[1..], cs) else s
  }

  /** `s.rstrip(chars)`: drop the longest suffix made of characters in `cs`. */
  function RStrip(s: string, cs: set<char>): (r: string)
    ensures |r| <= |s| && r == s[..|r|]
    ensures forall k :: |r| <= k < |s| ==> s[k] in cs
    ensures r == [] || r[|r| - 1] !in cs
  {
    if s != [] && s[|s| - 1] in cs then RStrip(s[..|s| - 1], cs) else s
  }

  /** `s.strip()`: drop leading and trailing whitespace. */
  function Strip(s: string): (r: string)
    ensures r == [] || (!IsSpace(r[0]) && !IsSpace(r[|r| - 1]))
    ensures |r| <= |s|
  {
    var t := LStrip(s, Whitespace);
    var r := RStrip(t, Whitespace);
    if r == [] then r
    else
      assert r[0] == t[0];
      NotSpace(t[0]);
      NotSpace(r[|r| - 1]);
      r
  }

  /** A character outside `Whitespace` is not whitespace. */
  lemma NotSpace(c: char)
    requires c !in Whitespace
    ensures !IsSpace(c)
  {
  }

  /** The characters Python 2's `str.strip()` removes from a byte string: the six ASCII whitespace characters. */
  const AsciiWhitespace: set<char> := {'\t', '\n', '\U{0B}', '\U{0C}', '\r', ' '}

  /**
   * `s.strip()` on a byte string. A non-ASCII character here stands for its UTF-8 bytes; none of those bytes
   * is ASCII whitespace, so the bytes stripped are exactly the characters stripped.
   */
  function StripBytes(s: string): (r: string)
    ensures r == [] || (r[0] !in AsciiWhitespace && r[|r| - 1] !in AsciiWhitespace)
    ensures |r| <= |s|
  {
    var t := LStrip(s, AsciiWhitespace);
    var r := RStrip(t, AsciiWhitespace);
    if r == [] then r
    else
      assert r[0] == t[0];
      r
  }

  /** Stripping a string twice changes nothing more than stripping it once. */
  lemma StripIdempotent(s: string)
    ensures Strip(Strip(s)) == Strip(s)
  {
    var t := Strip(s);
    assert LStrip(t, Whitespace) == t;
  }

  /** `s.startswith(p)` */
  predicate StartsWith(s: string, p: string) {
    |p| <= |s| && s[..|p|] == p
  }

  /** `p in s` for strings: `p` occurs at some position of `s`. */
  predicate Contains(s: string, p: string)
    decreases |s|
  {
    StartsWith(s, p) || (s != [] && Contains(s[1..], p))
  }

  /** A character occurs in `s` exactly when `[c]` does as a substring. */
  lemma {:induction false} ContainsChar(s: string, c: char)
    ensures Contains(s, [c]) <==> c in s
    decreases |s|
  {
    if s != [] {
      ContainsChar(s[1..], c);
      assert s == [s[0]] + s[1..];
    }
  }

  /** ASCII letters are lower-cased; every other character is kept. */
  function LowerChar(c: char): char {
    if 'A' <= c <= 'Z' then (c as int + 32) as char else c
  }

  /** `s.lower()`, restricted to ASCII letters. */
  function Lower(s: string): (r: string)
    ensures |r| == |s| && forall i :: 0 <= i < |s| ==> r[i] == LowerChar(s[i])
  {
    if s == [] then [] else [LowerChar(s[0])] + Lower(s[1..])
  }

  predicate IsAscii(s: string) {
    forall i :: 0 <= i < |s| ==> s[i] as int < 128
  }

  /** `sep.join(parts)` */
  function Join(parts: seq<string>, sep: string): string {
    if |parts| == 0 then ""
    else if |parts| == 1 then parts[0]
    else parts[0] + sep + Join(parts[1..], sep)
  }

  /** Appending a part to a non-empty list adds the separator and that part at the end. */
  lemma {:induction false} JoinSnoc(parts: seq<string>, x: string, sep: string)
    ensures Join(parts + [x], sep) == if parts == [] then x else Join(parts, sep) + sep + x
    decreases |parts|
  {
    if |parts| > 1 {
      assert (parts + [x])[1..] == parts[1..] + [x];
      JoinSnoc(parts[1..], x, sep);
    } else if |parts| == 1 {
      assert (parts + [x])[1..] == [x];
    }
  }

  /** `s.split(c)` for a one-character separator: the pieces between occurrences of `c`. */
  function Split(s: string, c: char): (r: seq<string>)
    ensures |r| > 0
    ensures forall k :: 0 <= k < |r| ==> c !in r[k]
  {
    if s == [] then [""]
    else
      var rest := Split(s[1..], c);
      if s[0] == c then [""] + rest
      else [[s[0]] + rest[0]] + rest[1..]
  }

  /** Joining the pieces of a split with the separator gives back the string. */
  lemma {:induction false} SplitJoin(s: string, c: char)
    ensures Join(Split(s, c), [c]) == s
  {
    if s != [] {
      var rest := Split(s[1..], c);
      SplitJoin(s[1..], c);
      if s[0] == c {
        assert Split(s, c) == [""] + rest;
        assert ([""] + rest)[1..] == rest;
      } else {
        var r := Split(s, c);
        assert r == [[s[0]] + rest[0]] + rest[1..];
        if |rest| > 1 {
          assert r[1..] == rest[1..];
        }
      }
    }
  }

  /** A string without `c` splits into itself alone. */
  lemma {:induction false} SplitNoSeparator(s: string, c: char)
    requires c !in s
    ensures Split(s, c) == [s]
  {
    if s != [] {
      SplitNoSeparator(s[1..], c);
      assert s == [s[0]] + s[1..];
    }
  }

  /** `s.replace(p, r)` in Python: every occurrence of `p`, scanning left to right without overlap, becomes `r`. */
  function ReplaceAll(s: string, p: string, r: string): string
    requires p != []
    decreases |s|
  {
    if |s| < |p| then s
    else if s[..|p|] == p then r + ReplaceAll(s[|p|..], p, r)
    else [s[0]] + ReplaceAll(s[1..], p, r)
  }

  /** A string in which `p` does not occur is returned unchanged by `ReplaceAll`. */
  lemma {:induction false} ReplaceAllAbsent(s: string, p: string, r: string)
    requires p != [] && !Contains(s, p)
    ensures ReplaceAll(s, p, r) == s
    decreases |s|
  {
    if |s| >= |p| {
      ReplaceAllAbsent(s[1..], p, r);
    }
  }

  /** Replacing `p` by itself changes nothing. */
  lemma {:induction false} ReplaceAllSelf(s: string, p: string)
    requires p != []
    ensures ReplaceAll(s, p, p) == s
    decreases |s|
  {
    if |s| >= |p| {
      if s[..|p|] == p {
        ReplaceAllSelf(s[|p|..], p);
        assert s == s[..|p|] + s[|p|..];
      } else {
        ReplaceAllSelf(s[1..], p);
      }
    }
  }

  /** `p` occurs in `s` at position `i`. */
  predicate OccursAt(s: string, p: string, i: int) {
    0 <= i <= |s| - |p| && s[i..i + |p|] == p
  }

  /** Position of the first occurrence of `p` in `s`, or -1 when there is none. */
  function Find(s: string, p: string): (r: int)
    ensures r == -1 || OccursAt(s, p, r)
    ensures forall i :: 0 <= i && (r == -1 || i < r) ==> !OccursAt(s, p, i)
    decreases |s|
  {
    if |s| < |p| then -1
    else if s[..|p|] == p then 0
    else
      var k := Find(s[1..], p);
      assert forall i :: 1 <= i ==> (OccursAt(s, p, i) <==> OccursAt(s[1..], p, i - 1));
      if k < 0 then -1 else k + 1
  }

  /** JavaScript's `s.replace(p, r)` with a string pattern: only the first occurrence is replaced. */
  function ReplaceFirst(s: string, p: string, r: string): (t: string)
    ensures Find(s, p) < 0 ==> t == s
    ensures Find(s, p) >= 0 ==> t == s[..Find(s, p)] + r + s[Find(s, p) + |p|..]
  {
    var i := Find(s, p);
    if i < 0 then s else s[..i] + r + s[i + |p|..]
  }

  /** `t` keeps some of the elements of `s`, in the same order. */
  predicate IsSubsequence<T(==)>(t: seq<T>, s: seq<T>) {
    if t == [] then true
    else if s == [] then false
    else if t[0] == s[0] then IsSubsequence(t[1..], s[1..])
    else IsSubsequence(t, s[1..])
  }

  /** Extending both sides of a subsequence by the same element, or only the larger one, keeps it a subsequence. */
  lemma {:induction false} SubsequenceSnoc<T>(t: seq<T>, s: seq<T>, x: T, keep: bool)
    requires IsSubsequence(t, s)
    ensures IsSubsequence(t + (if keep then [x] else []), s + [x])
    decreases |s|
  {
    var t' := t + (if keep then [x] else []);
    if t == [] {
      if keep {
        SubsequenceOne(s, x);
        assert t' == [x];
      }
    } else if t[0] == s[0] {
      SubsequenceSnoc(t[1..], s[1..], x, keep);
      assert t'[1..] == t[1..] + (if keep then [x] else []);
      assert (s + [x])[1..] == s[1..] + [x];
    } else {
      SubsequenceSnoc(t, s[1..], x, keep);
      assert (s + [x])[1..] == s[1..] + [x];
    }
  }

  lemma {:induction false} SubsequenceOne<T>(s: seq<T>, x: T)
    ensures IsSubsequence([x], s + [x])
    decreases |s|
  {
    if s != [] {
      assert (s + [x])[1..] == s[1..] + [x];
      SubsequenceOne(s[1..], x);
    }
  }

  /** A prefix holding no first character of `p` passes through `ReplaceAll` untouched. */
  lemma {:induction false} ReplaceAllPrefix(a: string, b: string, p: string, r: string)
    requires p != [] && p[0] !in a
    ensures ReplaceAll(a + b, p, r) == a + ReplaceAll(b, p, r)
    decreases |a|
  {
    if a != [] {
      var s := a + b;
      assert s[0] == a[0] && s[1..] == a[1..] + b;
      ReplaceAllPrefix(a[1..], b, p, r);
      if |s| >= |p| {
        assert s[..|p|][0] == a[0];
      } else {
        assert |b| < |p|;
      }
      assert a == [a[0]] + a[1..];
    } else {
      assert a + b == b;
    }
  }

  /** The first piece of a split is the text before the first separator; the rest splits what follows it. */
  lemma {:induction false} SplitFirst(s: string, c: char, i: nat)
    requires i < |s| && s[i] == c && c !in s[..i]
    ensures Split(s, c)[0] == s[..i]
    ensures Split(s, c)[1..] == Split(s[i + 1..], c)
  {
    if i > 0 {
      assert s[1..][..i - 1] == s[..i][1..];
      SplitFirst(s[1..], c, i - 1);
      assert s[1..][i..] == s[i + 1..];
    }
  }

  /** A string that begins with `p` finds it at position 0. */
  lemma FindPrefix(s: string, p: string)
    requires StartsWith(s, p)
    ensures Find(s, p) == 0
  {
  }

  /** A string holding no first character of `p` does not contain `p`. */
  lemma {:induction false} FindAbsent(s: string, p: string)
    requires p != [] && p[0] !in s
    ensures Find(s, p) == -1
    decreases |s|
  {
    if |s| >= |p| {
      assert s[..|p|][0] == s[0];
      FindAbsent(s[1..], p);
    }
  }

  /** A string contains each of its prefixes. */
  lemma StartsWithContains(s: string, p: string)
    requires StartsWith(s, p)
    ensures Contains(s, p)
  {
  }

  /** A missing (`None`) or falsy text value as `u''`. */
  function OrEmpty(s: Option<string>): (r: string)
    ensures s.Some? ==> r == s.value
    ensures s.None? ==> r == ""
  {
    if s.Some? then s.value else ""
  }

  /** `u'{} {}'.format(first, last).strip()`: the name a contact is shown under. */
  function FullName(first: string, last: string): string {
    Strip(first + " " + last)
  }
}
