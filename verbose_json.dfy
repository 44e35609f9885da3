// Reading JSON files that carry `//` and `/* ... */` comment lines (src/verbose_json.py).
module VerboseJson {
  import opened Text

  /** How `load` reads a line, by the start of its stripped form (the first test that applies). The rules file
   *  is opened in byte mode, so a line loses only its ASCII whitespace. */
  datatype Kind = LineComment | Open | Close | Text

  function KindOf(line: string): Kind {
    var l := StripBytes(line);
    if StartsWith(l, "//") then LineComment
    else if StartsWith(l, "/*") then Open
    else if StartsWith(l, "*/") then Close
    else Text
  }

  /** A line whose first character is neither ASCII whitespace nor `/` nor `*` is text, whatever follows: a line
   *  indented with a no-break space is kept, even when a comment marker comes next. */
  lemma PlainStartIsText(line: string)
    requires line != [] && line[0] !in AsciiWhitespace && line[0] != '/' && line[0] != '*'
    ensures KindOf(line) == Text
  {
    var t := LStrip(line, AsciiWhitespace);
    assert t == line;
    var l := StripBytes(line);
    assert l != [] && l[0] == line[0];
  }

  /** A line of a no-break space, the opening comment marker and `x` is kept as text and opens no comment. */
  lemma NoBreakSpaceIndentKept()
    ensures KindOf("\U{A0}/* x") == Text
    ensures Run(["\U{A0}/* x"]) == Filter(["\U{A0}/* x"], false)
  {
    PlainStartIsText("\U{A0}/* x");
    assert ["\U{A0}/* x"][..0] == [];
  }

  /** The state of `load` after some lines: the kept lines, and whether comment mode is on. */
  datatype Filter = Filter(kept: seq<string>, inComment: bool)

  /** One turn of the loop of `load`, on a line read as `kind`. */
  function Step(st: Filter, kind: Kind, line: string): Filter {
    match kind
    case LineComment => st
    case Open => st.(inComment := true)
    case Close => st.(inComment := false)
    case Text => if st.inComment then st else st.(kept := st.kept + [line])
  }

  /** The state of the loop once it has read `lines`, each classified by `kind`, starting with no lines and
   *  comment mode off. The lemmas below hold for any classification, so they are proved for every `kind`. */
  function RunBy(lines: seq<string>, kind: string -> Kind): Filter {
    if lines == [] then Filter([], false)
    else
      var last := lines[|lines| - 1];
      Step(RunBy(lines[..|lines| - 1], kind), kind(last), last)
  }

  /** The state of `load` once it has read `lines`. */
  function Run(lines: seq<string>): Filter {
    RunBy(lines, KindOf)
  }

  /** `load(fp)` up to the JSON parser: the kept lines, each exactly as read, joined with a newline. */
  method Load(lines: seq<string>) returns (text: string)
    ensures text == Join(Run(lines).kept, "\n")
  {
    var realJson: seq<string> := [];
    var inMultilineComment := false;
    var i := 0;
    while i < |lines|
      invariant 0 <= i <= |lines|
      invariant Run(lines[..i]) == Filter(realJson, inMultilineComment)
    {
      assert lines[..i + 1][..i] == lines[..i];
      var line := lines[i];
      var l := StripBytes(line);
      i := i + 1;
      if StartsWith(l, "//") {
        continue;
      }
      if StartsWith(l, "/*") {
        inMultilineComment := true;
        continue;
      }
      if StartsWith(l, "*/") {
        inMultilineComment := false;
        continue;
      }
      if inMultilineComment {
        continue;
      }
      realJson := realJson + [line];
    }
    assert lines[..|lines|] == lines;
    text := Join(realJson, "\n");
  }

  /** Kept lines are unmodified input lines in their original order, and none of them is a marker line. */
  lemma KeptSubsequence(lines: seq<string>)
    ensures IsSubsequence(Run(lines).kept, lines)
    ensures forall k :: 0 <= k < |Run(lines).kept| ==> KindOf(Run(lines).kept[k]) == Text
  {
    KeptSubsequenceBy(lines, KindOf);
  }

  lemma {:induction false} KeptSubsequenceBy(lines: seq<string>, kind: string -> Kind)
    ensures IsSubsequence(RunBy(lines, kind).kept, lines)
    ensures forall k :: 0 <= k < |RunBy(lines, kind).kept| ==> kind(RunBy(lines, kind).kept[k]) == Text
  {
    if lines != [] {
      var init, last := lines[..|lines| - 1], lines[|lines| - 1];
      KeptSubsequenceBy(init, kind);
      var st := RunBy(init, kind);
      var keep := kind(last) == Text && !st.inComment;
      SubsequenceSnoc(st.kept, init, last, keep);
      assert lines == init + [last];
      assert RunBy(lines, kind).kept == st.kept + (if keep then [last] else []);
    }
  }

  /** Comment mode is on exactly when some line opened a comment and no later line closed or reopened one. */
  lemma ModeSpec(lines: seq<string>)
    ensures Run(lines).inComment <==> OpenSince(lines, KindOf)
  {
    ModeSpecBy(lines, KindOf);
  }

  /** Some line of `lines` opens a comment, and every line after it is a `//` line or plain text. */
  predicate OpenSince(lines: seq<string>, kind: string -> Kind) {
    exists j :: 0 <= j < |lines| && kind(lines[j]) == Open &&
      forall k :: j < k < |lines| ==> kind(lines[k]) == LineComment || kind(lines[k]) == Text
  }

  lemma {:induction false} ModeSpecBy(lines: seq<string>, kind: string -> Kind)
    ensures RunBy(lines, kind).inComment <==> OpenSince(lines, kind)
  {
    if lines != [] {
      var n := |lines| - 1;
      var init, last := lines[..n], lines[n];
      ModeSpecBy(init, kind);
      assert forall k :: 0 <= k < n ==> init[k] == lines[k];
      if kind(last) == Open {
        assert kind(lines[n]) == Open;
      } else if kind(last) != Close {
        if OpenSince(lines, kind) {
          var j :| 0 <= j < |lines| && kind(lines[j]) == Open &&
            forall k :: j < k < |lines| ==> kind(lines[k]) == LineComment || kind(lines[k]) == Text;
          assert kind(init[j]) == Open;
        }
        if RunBy(init, kind).inComment {
          var j :| 0 <= j < n && kind(init[j]) == Open &&
            forall k :: j < k < n ==> kind(init[k]) == LineComment || kind(init[k]) == Text;
          assert kind(lines[j]) == Open;
        }
      }
    }
  }

  /** A line is kept exactly when it is no marker line and comment mode is off before it; otherwise nothing is kept. */
  lemma KeptIff(lines: seq<string>, line: string)
    ensures Run(lines + [line]).kept == Run(lines).kept + [line] <==> KindOf(line) == Text && !Run(lines).inComment
    ensures Run(lines + [line]).kept == Run(lines).kept || Run(lines + [line]).kept == Run(lines).kept + [line]
  {
    assert (lines + [line])[..|lines|] == lines;
  }

  // A line opening a comment, even `/* ... */` on one line, keeps lines dropped until one starts with the closer.
  lemma CommentKeepsDropping(before: seq<string>, opener: string, after: seq<string>)
    requires KindOf(opener) == Open
    requires forall k :: 0 <= k < |after| ==> KindOf(after[k]) != Close
    ensures Run(before + [opener] + after).kept == Run(before).kept
    ensures Run(before + [opener] + after).inComment
  {
    CommentKeepsDroppingBy(before, opener, after, KindOf);
  }

  lemma {:induction false} CommentKeepsDroppingBy(before: seq<string>, opener: string, after: seq<string>,
                                                  kind: string -> Kind)
    requires kind(opener) == Open
    requires forall k :: 0 <= k < |after| ==> kind(after[k]) != Close
    ensures RunBy(before + [opener] + after, kind).kept == RunBy(before, kind).kept
    ensures RunBy(before + [opener] + after, kind).inComment
  {
    var all := before + [opener] + after;
    if after == [] {
      assert all[..|all| - 1] == before;
    } else {
      var n := |after| - 1;
      CommentKeepsDroppingBy(before, opener, after[..n], kind);
      assert all[..|all| - 1] == before + [opener] + after[..n];
      assert all[|all| - 1] == after[n];
    }
  }

  /** A file without marker lines is passed on whole. */
  lemma NoCommentsKeepsAll(lines: seq<string>)
    requires forall k :: 0 <= k < |lines| ==> KindOf(lines[k]) == Text
    ensures Run(lines) == Filter(lines, false)
  {
    NoCommentsKeepsAllBy(lines, KindOf);
  }

  lemma {:induction false} NoCommentsKeepsAllBy(lines: seq<string>, kind: string -> Kind)
    requires forall k :: 0 <= k < |lines| ==> kind(lines[k]) == Text
    ensures RunBy(lines, kind) == Filter(lines, false)
  {
    if lines != [] {
      var n := |lines| - 1;
      NoCommentsKeepsAllBy(lines[..n], kind);
      assert forall k :: 0 <= k < n ==> lines[..n][k] == lines[k];
      assert lines == lines[..n] + [lines[n]];
    }
  }
}
