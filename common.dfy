/** Helpers shared by the workflow's scripts (src/common.py). */
module Common {
  import opened Text

  /** What `_applescriptify` puts in place of each double quote. */
  const QuoteEscape: string := "\" + quote + \""

  /** `_applescriptify`: every `"` becomes `" + quote + "`, so the text can sit in an AppleScript string. */
  function Applescriptify(text: string): string {
    ReplaceAll(text, "\"", QuoteEscape)
  }

  /** The character-by-character reading of `Applescriptify`. */
  function EscapeEach(text: string): string {
    if text == [] then ""
    else (if text[0] == '"' then QuoteEscape else [text[0]]) + EscapeEach(text[1..])
  }

  /** Only double quotes are rewritten; every other character is kept, in order. */
  lemma {:induction false} ApplescriptifyEach(text: string)
    ensures Applescriptify(text) == EscapeEach(text)
  {
    if text != [] {
      ApplescriptifyEach(text[1..]);
      assert text[..1] == [text[0]];
    }
  }

  /** Text without a double quote is returned unchanged. */
  lemma ApplescriptifyNoQuote(text: string)
    requires '"' !in text
    ensures Applescriptify(text) == text
  {
    ContainsChar(text, '"');
    ReplaceAllAbsent(text, "\"", QuoteEscape);
  }

  /** Reads an escaped text back: each `" + quote + "` becomes `"` again. */
  function Unapplescriptify(s: string): string {
    if s == [] then ""
    else if StartsWith(s, QuoteEscape) then "\"" + Unapplescriptify(s[|QuoteEscape|..])
    else [s[0]] + Unapplescriptify(s[1..])
  }

  /** The escaping loses nothing: it can be undone. */
  lemma {:induction false} ApplescriptifyRoundTrip(text: string)
    ensures Unapplescriptify(Applescriptify(text)) == text
  {
    ApplescriptifyEach(text);
    EscapeRoundTrip(text);
  }

  lemma {:induction false} EscapeRoundTrip(text: string)
    ensures Unapplescriptify(EscapeEach(text)) == text
  {
    if text != [] {
      var rest := EscapeEach(text[1..]);
      EscapeRoundTrip(text[1..]);
      if text[0] == '"' {
        assert (QuoteEscape + rest)[|QuoteEscape|..] == rest;
        assert StartsWith(QuoteEscape + rest, QuoteEscape);
      } else {
        assert ([text[0]] + rest)[1..] == rest;
      }
      assert text == [text[0]] + text[1..];
    }
  }

  /** Position of the last `c` in `s`, or -1. */
  function RFind(s: string, c: char): (r: int)
    ensures -1 <= r < |s|
    ensures r >= 0 ==> s[r] == c
    ensures forall k :: r < k < |s| ==> s[k] != c
  {
    if s == [] then -1
    else if s[|s| - 1] == c then |s| - 1
    else RFind(s[..|s| - 1], c)
  }

  /** `os.path.basename`: everything after the last `/`. */
  function Basename(path: string): (r: string)
    ensures '/' !in r
    ensures |r| <= |path| && path == path[..|path| - |r|] + r
    ensures |r| == |path| || path[|path| - |r| - 1] == '/'
  {
    var i := RFind(path, '/');
    AfterLast(path, i, '/');
    path[i + 1..]
  }

  /** The text after the last `c` holds no `c`, and with the text up to it gives back the string. */
  lemma AfterLast(s: string, i: int, c: char)
    requires -1 <= i < |s|
    requires forall k :: i < k < |s| ==> s[k] != c
    ensures c !in s[i + 1..]
    ensures s == s[..i + 1] + s[i + 1..]
  {
    var r := s[i + 1..];
    forall k | 0 <= k < |r|
      ensures r[k] != c
    {
      assert r[k] == s[i + 1 + k];
    }
  }

  /** `os.path.splitext(name)[0]` for a name without `/`: cut at the last dot, unless only dots precede it. */
  function StripExtension(name: string): (r: string)
    ensures |r| <= |name| && r == name[..|r|]
  {
    var dot := RFind(name, '.');
    if dot > 0 && exists k :: 0 <= k < dot && name[k] != '.' then name[..dot] else name
  }

  /** `splitext` cuts exactly when some character other than `.` comes before a `.`, and then at the last `.`. */
  lemma StripExtensionSpec(name: string)
    ensures var r := StripExtension(name);
      && (r != name ==> name[|r|] == '.' && '.' !in name[|r| + 1..])
      && (r != name <==> exists k, d :: 0 <= k < d < |name| && name[k] != '.' && name[d] == '.')
  {
    var dot := RFind(name, '.');
    if dot > 0 && exists k :: 0 <= k < dot && name[k] != '.' {
      AfterLast(name, dot, '.');
    }
  }

  /** `appname`: the basename of the application path with its last extension removed. */
  function AppName(path: string): (r: string)
    ensures '/' !in r
  {
    StripExtension(Basename(path))
  }

  /** `appname("/Applications/Mail.app")` is "Mail". */
  lemma AppNameOfPath(dir: string, name: string, ext: string)
    requires '/' !in name && '/' !in ext && '.' !in ext
    requires exists k :: 0 <= k < |name| && name[k] != '.'
    ensures AppName(dir + "/" + name + "." + ext) == name
  {
    var path := dir + "/" + name + "." + ext;
    var base := name + "." + ext;
    assert path[|dir|] == '/';
    assert path[|dir| + 1..] == base;
    assert RFind(path, '/') == |dir|;
    assert base[|name|] == '.';
    assert RFind(base, '.') == |name|;
    assert base[..|name|] == name;
  }

  lemma AppNameMail()
    ensures AppName("/Applications/Mail.app") == "Mail"
  {
    assert "/Applications/Mail.app" == "/Applications" + "/" + "Mail" + "." + "app";
    assert "Mail"[0] != '.';
    AppNameOfPath("/Applications", "Mail", "app");
  }

  /** The list comprehension of `command_lines` over the pieces of the output. */
  function NonBlankLines(pieces: seq<string>): (r: seq<string>)
    ensures forall k :: 0 <= k < |r| ==> r[k] != "" && Strip(r[k]) == r[k]
  {
    StripIdempotentAll();
    KeptBy(pieces, Strip)
  }

  /** `[f(p) for p in pieces if f(p)]` for an idempotent `f`; the lemmas below hold for any such `f`. */
  function KeptBy(pieces: seq<string>, f: string -> string): (r: seq<string>)
    requires forall x :: f(f(x)) == f(x)
    ensures forall k :: 0 <= k < |r| ==> r[k] != "" && f(r[k]) == r[k]
  {
    if pieces == [] then []
    else
      var s := f(pieces[0]);
      (if s != "" then [s] else []) + KeptBy(pieces[1..], f)
  }

  lemma StripIdempotentAll()
    ensures forall x :: Strip(Strip(x)) == Strip(x)
  {
    forall x
      ensures Strip(Strip(x)) == Strip(x)
    {
      StripIdempotent(x);
    }
  }

  /** `command_lines` on the text a command printed: its stripped, non-blank lines. */
  function CommandLines(output: string): (r: seq<string>)
    ensures forall k :: 0 <= k < |r| ==> r[k] != "" && Strip(r[k]) == r[k]
  {
    NonBlankLines(Split(Strip(output), '\n'))
  }

  /** `[p.strip() for p in pieces]` */
  function MapStrip(pieces: seq<string>): (r: seq<string>)
    ensures |r| == |pieces| && forall k :: 0 <= k < |r| ==> r[k] == Strip(pieces[k])
  {
    MapBy(pieces, Strip)
  }

  /** `[f(p) for p in pieces]` */
  function MapBy(pieces: seq<string>, f: string -> string): (r: seq<string>)
    ensures |r| == |pieces| && forall k :: 0 <= k < |r| ==> r[k] == f(pieces[k])
  {
    if pieces == [] then [] else [f(pieces[0])] + MapBy(pieces[1..], f)
  }

  /** The lines keep their original order, and every non-blank line is among them. */
  lemma NonBlankLinesOrder(pieces: seq<string>)
    ensures IsSubsequence(NonBlankLines(pieces), MapStrip(pieces))
    ensures forall k :: 0 <= k < |pieces| && Strip(pieces[k]) != "" ==> Strip(pieces[k]) in NonBlankLines(pieces)
  {
    StripIdempotentAll();
    KeptOrderBy(pieces, Strip);
  }

  lemma {:induction false} KeptOrderBy(pieces: seq<string>, f: string -> string)
    requires forall x :: f(f(x)) == f(x)
    ensures IsSubsequence(KeptBy(pieces, f), MapBy(pieces, f))
    ensures forall k :: 0 <= k < |pieces| && f(pieces[k]) != "" ==> f(pieces[k]) in KeptBy(pieces, f)
  {
    if pieces != [] {
      KeptOrderBy(pieces[1..], f);
      var t, s := KeptBy(pieces, f), MapBy(pieces, f);
      assert s[1..] == MapBy(pieces[1..], f);
      if f(pieces[0]) != "" {
        assert t[0] == s[0] && t[1..] == KeptBy(pieces[1..], f);
      } else {
        assert t == KeptBy(pieces[1..], f);
      }
      assert forall k :: 1 <= k < |pieces| ==> pieces[k] == pieces[1..][k - 1];
    }
  }
}
