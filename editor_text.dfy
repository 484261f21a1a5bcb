/**
 * The playground's text utilities (Code_Prototype_2.js): `escapeHtml`, the
 * `</` escape applied before injecting CSS and JavaScript into a page, the
 * line maps inside `indent` and `toggleComment`, and the line/column shown
 * for the caret.
 */
module EditorText {
  import opened Strings

  // ---------------------------------------------------------------------
  // escapeHtml (line 186)
  // ---------------------------------------------------------------------

  /** The replacement for one character: the three markup characters become entities. */
  function EscapeChar(c: char): string
  {
    if c == '&' then "&amp;" else if c == '<' then "&lt;" else if c == '>' then "&gt;" else [c]
  }

  /** `escapeHtml(s)`: each `&`, `<`, `>` replaced by its entity, in order. */
  function EscapeHtml(s: string): (r: string)
    ensures '<' !in r && '>' !in r
    ensures |r| >= |s|
  {
    if s == [] then "" else EscapeChar(s[0]) + EscapeHtml(s[1..])
  }

  /** How a browser reads the escaped text back: the three entities become their characters. */
  function UnescapeHtml(t: string): string
    decreases |t|
  {
    if t == [] then ""
    else if StartsWith(t, "&amp;") then "&" + UnescapeHtml(t[5..])
    else if StartsWith(t, "&lt;") then "<" + UnescapeHtml(t[4..])
    else if StartsWith(t, "&gt;") then ">" + UnescapeHtml(t[4..])
    else [t[0]] + UnescapeHtml(t[1..])
  }

  /** Reading back one escaped character followed by already-escaped text. */
  lemma UnescapeOne(c: char, rest: string)
    ensures UnescapeHtml(EscapeChar(c) + rest) == [c] + UnescapeHtml(rest)
  {
    if c == '&' {
      UnescapeAmp(rest);
    } else if c == '<' {
      UnescapeLt(rest);
    } else if c == '>' {
      UnescapeGt(rest);
    } else {
      var t := [c] + rest;
      assert t[0] == c && t[1..] == rest;
    }
  }

  lemma UnescapeAmp(rest: string)
    ensures UnescapeHtml("&amp;" + rest) == "&" + UnescapeHtml(rest)
  {
    var t := "&amp;" + rest;
    assert t[..5] == "&amp;" && t[5..] == rest;
  }

  lemma UnescapeLt(rest: string)
    ensures UnescapeHtml("&lt;" + rest) == "<" + UnescapeHtml(rest)
  {
    var t := "&lt;" + rest;
    assert t[1] == 'l' && "&amp;"[1] == 'a';
    assert t[..4] == "&lt;" && t[4..] == rest;
  }

  lemma UnescapeGt(rest: string)
    ensures UnescapeHtml("&gt;" + rest) == ">" + UnescapeHtml(rest)
  {
    var t := "&gt;" + rest;
    assert t[1] == 'g' && "&amp;"[1] == 'a' && "&lt;"[1] == 'l';
    assert t[..4] == "&gt;" && t[4..] == rest;
  }

  /** The escape loses nothing: reading the entities back gives the original text. */
  lemma {:induction false} UnescapeEscape(s: string)
    ensures UnescapeHtml(EscapeHtml(s)) == s
  {
    if s != [] {
      UnescapeEscape(s[1..]);
      UnescapeOne(s[0], EscapeHtml(s[1..]));
      assert s == [s[0]] + s[1..];
    }
  }

  /** Text without markup characters comes through unchanged. */
  lemma {:induction false} EscapePlainText(s: string)
    requires '&' !in s && '<' !in s && '>' !in s
    ensures EscapeHtml(s) == s
  {
    if s != [] {
      var t := s[1..];
      assert s == [s[0]] + t;
      assert '&' !in t && '<' !in t && '>' !in t;
      EscapePlainText(t);
      assert EscapeChar(s[0]) == [s[0]];
    }
  }

  // ---------------------------------------------------------------------
  // The `</` escape before injection (lines 205-206, 235, 283)
  // ---------------------------------------------------------------------

  /** No `<` is directly followed by `/`: the text cannot close the element it sits in. */
  predicate NoCloseTag(s: string)
  {
    forall i :: 0 <= i < |s| - 1 ==> !(s[i] == '<' && s[i + 1] == '/')
  }

  /**
   * `s.replace(/<\//g, '<\\/')`: every `</`, scanned left to right, becomes
   * `<\/`.
   */
  function EscapeCloseTags(s: string): (r: string)
    ensures NoCloseTag(r)
    ensures |r| >= |s|
    ensures |r| > 0 && r[0] == '/' <==> |s| > 0 && s[0] == '/'
  {
    if |s| >= 2 && s[0] == '<' && s[1] == '/' then
      var rest := EscapeCloseTags(s[2..]);
      var r := "<\\/" + rest;
      assert forall i :: 3 <= i < |r| ==> r[i] == rest[i - 3];
      r
    else if s == [] then ""
    else
      var rest := EscapeCloseTags(s[1..]);
      var r := [s[0]] + rest;
      assert forall i :: 1 <= i < |r| ==> r[i] == rest[i - 1];
      r
  }

  /** Text that closes nothing comes through unchanged. */
  lemma {:induction false} EscapeCloseTagsKeeps(s: string)
    requires NoCloseTag(s)
    ensures EscapeCloseTags(s) == s
  {
    if s != [] {
      assert NoCloseTag(s[1..]) by {
        forall i | 0 <= i < |s[1..]| - 1 ensures !(s[1..][i] == '<' && s[1..][i + 1] == '/') {
          assert s[1..][i] == s[i + 1] && s[1..][i + 1] == s[i + 2];
        }
      }
      EscapeCloseTagsKeeps(s[1..]);
      assert s == [s[0]] + s[1..];
    }
  }

  /** Escaping twice is escaping once. */
  lemma EscapeCloseTagsIdempotent(s: string)
    ensures EscapeCloseTags(EscapeCloseTags(s)) == EscapeCloseTags(s)
  {
    EscapeCloseTagsKeeps(EscapeCloseTags(s));
  }

  /**
   * The escape the preview and build-HTML buttons apply (lines 312, 320):
   * the pattern is escaped one level too deep, so it replaces each `<\/`
   * by `<\\/` and leaves `</` alone.
   */
  function PreviewEscape(s: string): string
  {
    if |s| >= 3 && s[0] == '<' && s[1] == '\\' && s[2] == '/' then "<\\\\/" + PreviewEscape(s[3..])
    else if s == [] then ""
    else [s[0]] + PreviewEscape(s[1..])
  }

  lemma {:induction false} PreviewEscapeNoBackslash(s: string)
    requires '\\' !in s
    ensures PreviewEscape(s) == s
  {
    if s != [] {
      assert s[0] in s && forall c :: c in s[1..] ==> c in s;
      PreviewEscapeNoBackslash(s[1..]);
      assert s == [s[0]] + s[1..];
    }
  }

  /** A bundle holding `</script>` reaches the preview page with the tag intact. */
  lemma PreviewEscapeKeepsCloseTag()
    ensures PreviewEscape("</script>") == "</script>"
    ensures !NoCloseTag(PreviewEscape("</script>"))
    ensures NoCloseTag(EscapeCloseTags("</script>"))
  {
    PreviewEscapeNoBackslash("</script>");
    var t := PreviewEscape("</script>");
    assert t[0] == '<' && t[1] == '/';
  }

  // ---------------------------------------------------------------------
  // indent(delta) on the selected text (lines 125-131)
  // ---------------------------------------------------------------------

  /** `l.startsWith('  ') ? l.slice(2) : l`. */
  function OutdentLine(l: string): (r: string)
    ensures StartsWith(l, "  ") ==> "  " + r == l
    ensures !StartsWith(l, "  ") ==> r == l
  {
    if StartsWith(l, "  ") then l[2..] else l
  }

  /** Every line with two spaces in front. */
  function IndentAll(ls: seq<string>): (r: seq<string>)
    ensures |r| == |ls| && forall i :: 0 <= i < |ls| ==> r[i] == "  " + ls[i]
  {
    if ls == [] then [] else ["  " + ls[0]] + IndentAll(ls[1..])
  }

  /** Every line outdented. */
  function OutdentAll(ls: seq<string>): (r: seq<string>)
    ensures |r| == |ls| && forall i :: 0 <= i < |ls| ==> r[i] == OutdentLine(ls[i])
  {
    if ls == [] then [] else [OutdentLine(ls[0])] + OutdentAll(ls[1..])
  }

  /**
   * The text `indent(delta)` puts in place of the selection: its lines
   * split at `\n`, each indented (`delta > 0`) or outdented, joined again.
   */
  function IndentText(sel: string, delta: int): string
  {
    var lines := Split(sel, '\n');
    Join(if delta > 0 then IndentAll(lines) else OutdentAll(lines), "\n")
  }

  /** Outdenting what was just indented gives the selection back. */
  lemma OutdentUndoesIndent(sel: string)
    ensures IndentText(IndentText(sel, 1), -1) == sel
  {
    var lines := Split(sel, '\n');
    var ind := IndentAll(lines);
    forall i | 0 <= i < |ind| ensures '\n' !in ind[i] {
      assert ind[i] == "  " + lines[i];
    }
    SplitJoin(ind, '\n');
    var back := OutdentAll(ind);
    assert back == lines by {
      forall i | 0 <= i < |lines| ensures back[i] == lines[i] {
        assert StartsWith(ind[i], "  ");
      }
    }
    JoinSplit(sel, '\n');
  }

  /** Indenting adds two characters per line and nothing else. */
  lemma IndentLength(sel: string)
    ensures |IndentText(sel, 1)| == |sel| + 2 * (Count(sel, '\n') + 1)
  {
    var lines := Split(sel, '\n');
    SplitLength(sel, '\n');
    JoinSplit(sel, '\n');
    IndentJoinLength(lines);
  }

  lemma {:induction false} IndentJoinLength(ls: seq<string>)
    requires |ls| >= 1
    ensures |Join(IndentAll(ls), "\n")| == |Join(ls, "\n")| + 2 * |ls|
  {
    if |ls| > 1 {
      IndentJoinLength(ls[1..]);
      assert IndentAll(ls)[1..] == IndentAll(ls[1..]);
    }
  }

  // ---------------------------------------------------------------------
  // toggleComment on the selected lines (lines 137-142)
  // ---------------------------------------------------------------------

  /**
   * A character `\s` and `String.prototype.trim` treat as white space: the
   * ECMAScript WhiteSpace and LineTerminator characters.
   */
  predicate IsJsSpace(c: char)
  {
    c == ' ' || c == '\t' || c == '\n' || c == '\r' || c == '\U{000B}' || c == '\U{000C}'
    || c == '\U{00A0}' || c == '\U{1680}' || ('\U{2000}' <= c <= '\U{200A}')
    || c == '\U{2028}' || c == '\U{2029}' || c == '\U{202F}' || c == '\U{205F}'
    || c == '\U{3000}' || c == '\U{FEFF}'
  }

  /** The length of the line's leading white space, what `^(\s*)` captures. */
  function Lead(l: string): (r: nat)
    ensures r <= |l|
    ensures forall i :: 0 <= i < r ==> IsJsSpace(l[i])
    ensures r == |l| || !IsJsSpace(l[r])
  {
    if l == [] || !IsJsSpace(l[0]) then 0 else 1 + Lead(l[1..])
  }

  /** `l.trim().startsWith('//')`: the first non-space characters are `//`. */
  predicate Commented(l: string)
  {
    StartsWith(l[Lead(l)..], "//")
  }

  /** `l.replace(/^(\s*)/, '$1// ')`. */
  function CommentLine(l: string): string
  {
    l[..Lead(l)] + "// " + l[Lead(l)..]
  }

  /** `l.replace(/^(\s*)\/\//, '$1')`: a commented line loses its first `//`. */
  function UncommentLine(l: string): string
  {
    if Commented(l) then l[..Lead(l)] + l[Lead(l) + 2..] else l
  }

  /** The leading white space stops at a non-space character put after it. */
  lemma {:induction false} LeadBefore(w: string, rest: string)
    requires forall i :: 0 <= i < |w| ==> IsJsSpace(w[i])
    requires rest != [] && !IsJsSpace(rest[0])
    ensures Lead(w + rest) == |w|
  {
    if w != [] {
      assert (w + rest)[1..] == w[1..] + rest;
      LeadBefore(w[1..], rest);
    }
  }

  /** Commenting a line makes it commented. */
  lemma CommentedAfter(l: string)
    ensures Commented(CommentLine(l))
    ensures Lead(CommentLine(l)) == Lead(l)
  {
    var k := Lead(l);
    LeadBefore(l[..k], "// " + l[k..]);
    assert CommentLine(l) == l[..k] + ("// " + l[k..]);
  }

  /** Uncommenting takes exactly two characters off a commented line. */
  lemma UncommentShortens(l: string)
    requires Commented(l)
    ensures |UncommentLine(l)| == |l| - 2
  {
  }

  /**
   * Toggling an uncommented line twice does not give it back: `// ` goes
   * in, only `//` comes out, and a space is left after the indentation.
   */
  lemma ToggleTwiceLeavesSpace(l: string)
    ensures UncommentLine(CommentLine(l)) == l[..Lead(l)] + " " + l[Lead(l)..]
  {
    CommentedAfter(l);
    var k := Lead(l);
    var c := CommentLine(l);
    UncommentAt(c, k);
    CutMarker(l[..k], l[k..]);
  }

  /** What uncommenting keeps of a commented line whose indentation is `k` long. */
  lemma UncommentAt(c: string, k: nat)
    requires Commented(c) && Lead(c) == k
    ensures UncommentLine(c) == c[..k] + c[k + 2..]
  {
  }

  /** The pieces `UncommentLine` keeps of a line with `// ` put after `w`. */
  lemma CutMarker(w: string, rest: string)
    ensures var c := w + "// " + rest; c[..|w|] + c[|w| + 2..] == w + " " + rest
  {
    var c := w + "// " + rest;
    assert c[..|w|] == w && c[|w| + 2..] == " " + rest;
  }

  predicate AllCommented(ls: seq<string>)
  {
    forall i :: 0 <= i < |ls| ==> Commented(ls[i])
  }

  /** The line map of `toggleComment`: uncomment all when all are commented, comment all otherwise. */
  function ToggleLines(ls: seq<string>): (r: seq<string>)
    ensures |r| == |ls|
    ensures AllCommented(ls) ==> forall i :: 0 <= i < |ls| ==> r[i] == UncommentLine(ls[i])
    ensures !AllCommented(ls) ==> forall i :: 0 <= i < |ls| ==> r[i] == CommentLine(ls[i])
  {
    if AllCommented(ls) then seq(|ls|, i requires 0 <= i < |ls| => UncommentLine(ls[i]))
    else seq(|ls|, i requires 0 <= i < |ls| => CommentLine(ls[i]))
  }

  /** `toggleComment` on the selected text (or the caret's line). */
  function ToggleComment(text: string): string
  {
    Join(ToggleLines(Split(text, '\n')), "\n")
  }

  /** When some line is not commented, toggling comments every line, each growing by three characters. */
  lemma ToggleCommentsAll(text: string)
    requires !AllCommented(Split(text, '\n'))
    ensures var out := Split(ToggleComment(text), '\n');
      |out| == |Split(text, '\n')| && AllCommented(out)
      && forall i :: 0 <= i < |out| ==> |out[i]| == |Split(text, '\n')[i]| + 3
  {
    var lines := Split(text, '\n');
    var t := ToggleLines(lines);
    forall i | 0 <= i < |t| ensures '\n' !in t[i] && Commented(t[i]) {
      CommentedAfter(lines[i]);
    }
    SplitJoin(t, '\n');
  }

  /** When every line is commented, toggling takes exactly two characters off each. */
  lemma ToggleUncommentsAll(text: string)
    requires AllCommented(Split(text, '\n'))
    ensures var out := Split(ToggleComment(text), '\n');
      |out| == |Split(text, '\n')|
      && forall i :: 0 <= i < |out| ==> |out[i]| == |Split(text, '\n')[i]| - 2
  {
    var lines := Split(text, '\n');
    var t := ToggleLines(lines);
    forall i | 0 <= i < |t| ensures '\n' !in t[i] {
      assert '\n' !in lines[i];
      var k := Lead(lines[i]);
      assert t[i] == lines[i][..k] + lines[i][k + 2..];
      assert forall c :: c in t[i] ==> c in lines[i];
    }
    SplitJoin(t, '\n');
  }

  // ---------------------------------------------------------------------
  // updateCursor's line and column (lines 96-102)
  // ---------------------------------------------------------------------

  /** `s.lastIndexOf(c)`: the last position holding `c`, -1 when there is none. */
  function LastIndexOf(s: string, c: char): (r: int)
    ensures -1 <= r < |s|
    ensures r >= 0 ==> s[r] == c
    ensures forall i :: r < i < |s| ==> s[i] != c
  {
    if s == [] then -1
    else
      var r := LastIndexOf(s[1..], c);
      if r >= 0 then r + 1 else if s[0] == c then 0 else -1
  }

  datatype Cursor = Cursor(line: nat, col: nat)

  /**
   * The `Ln`/`Col` shown for a caret at `pos` in `v`: the text before the
   * caret (`slice` clamps `pos` to the text), its number of `\n`-separated
   * pieces, and its length minus the position of its last `\n`.
   */
  function CursorAt(v: string, pos: nat): Cursor
  {
    var before := v[..if pos <= |v| then pos else |v|];
    Cursor(|Split(before, '\n')|, |before| - LastIndexOf(before, '\n'))
  }

  /**
   * The line is one more than the newlines before the caret, and the
   * column one more than the characters of that line before the caret.
   */
  lemma CursorMeaning(v: string, pos: nat)
    requires pos <= |v|
    ensures CursorAt(v, pos).line == Count(v[..pos], '\n') + 1
    ensures CursorAt(v, pos).col == |Split(v[..pos], '\n')[CursorAt(v, pos).line - 1]| + 1
  {
    var before := v[..pos];
    SplitLength(before, '\n');
    SplitLast(before, '\n');
  }

  /** The last piece of a split is what follows the last separator. */
  lemma {:induction false} SplitLast(s: string, c: char)
    ensures var parts := Split(s, c); parts[|parts| - 1] == s[LastIndexOf(s, c) + 1..]
  {
    if s != [] {
      var t := s[1..];
      SplitLast(t, c);
      SplitOneIff(t, c);
      SplitTail(s, c);
      AfterLastTail(s, c);
      if LastIndexOf(t, c) < 0 && s[0] != c {
        assert s == [s[0]] + t;
      }
    }
  }

  /** What follows the last separator, in terms of the tail. */
  lemma AfterLastTail(s: string, c: char)
    requires s != []
    ensures var t := s[1..]; var r := LastIndexOf(t, c);
      s[LastIndexOf(s, c) + 1..] == if r >= 0 then t[r + 1..] else if s[0] == c then t else s
  {
    var t := s[1..];
    var r := LastIndexOf(t, c);
    if r >= 0 {
      assert s[r + 2..] == t[r + 1..];
    }
  }

  /** The last piece of a split, in terms of the split of the tail. */
  lemma SplitTail(s: string, c: char)
    requires s != []
    ensures var parts := Split(s, c); var rest := Split(s[1..], c);
      parts[|parts| - 1] == if s[0] != c && |rest| == 1 then [s[0]] + rest[0] else rest[|rest| - 1]
  {
  }

  /** A split has a single piece exactly when the separator does not occur. */
  lemma {:induction false} SplitOneIff(s: string, c: char)
    ensures |Split(s, c)| == 1 <==> LastIndexOf(s, c) == -1
  {
    SplitLength(s, c);
    CountZero(s, c);
    if LastIndexOf(s, c) >= 0 {
      assert s[LastIndexOf(s, c)] in s;
    }
  }

  lemma {:induction false} CountZero(s: string, c: char)
    ensures Count(s, c) == 0 <==> c !in s
  {
    if s != [] {
      CountZero(s[1..], c);
      assert s == [s[0]] + s[1..];
    }
  }
}
