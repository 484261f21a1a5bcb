/**
 * The playground's project (Code_Prototype_2.js, lines 12-81, 198-201,
 * 216-218): a non-empty list of files and the id of the active one, the
 * handlers that add, rename, remove and activate files, and the pure
 * functions that gather the files' text for running.
 *
 * File ids come from `uid()`, which draws random characters; here the
 * caller supplies a fresh id.
 */
module Playground {
  import opened Wrappers
  import opened Strings

  datatype File = File(id: string, name: string, content: string)

  /** The kinds the add-file buttons create. */
  datatype Ext = JsExt | HtmlExt | CssExt

  // ---------------------------------------------------------------------
  // Names: case-insensitive suffixes and numbered names
  // ---------------------------------------------------------------------

  /** ASCII case folding, what a non-Unicode `/i` regular expression compares by. */
  function Lower(c: char): char
  {
    if 'A' <= c <= 'Z' then (c as int + 32) as char else c
  }

  function LowerAll(s: string): (r: string)
    ensures |r| == |s| && forall i :: 0 <= i < |s| ==> r[i] == Lower(s[i])
  {
    if s == [] then [] else [Lower(s[0])] + LowerAll(s[1..])
  }

  /** `/\.html$/i.test(name)` and its `.css` and `.js` relatives: `suffix` is lower case. */
  predicate EndsWithCI(name: string, suffix: string)
  {
    |suffix| <= |name| && LowerAll(name[|name| - |suffix|..]) == suffix
  }

  predicate IsHtml(name: string) { EndsWithCI(name, ".html") }
  predicate IsCss(name: string) { EndsWithCI(name, ".css") }
  predicate IsJs(name: string) { EndsWithCI(name, ".js") }

  /** `/^index\.html$/i.test(name)`. */
  predicate IsIndexHtml(name: string)
  {
    LowerAll(name) == "index.html"
  }

  lemma IndexHtmlIsHtml(name: string)
    requires IsIndexHtml(name)
    ensures IsHtml(name)
  {
    assert LowerAll(name[5..]) == LowerAll(name)[5..];
  }

  /** A decimal digit. */
  function Digit(d: nat): char
    requires d < 10
  {
    ('0' as int + d) as char
  }

  /** `${n}` for a natural number: its decimal digits. */
  function NatToString(n: nat): (r: string)
    ensures |r| >= 1 && (n < 10 <==> |r| == 1)
  {
    if n < 10 then [Digit(n)] else NatToString(n / 10) + [Digit(n % 10)]
  }

  /** Different numbers are written differently. */
  lemma {:induction false} NatToStringInjective(a: nat, b: nat)
    requires NatToString(a) == NatToString(b)
    ensures a == b
  {
    var s := NatToString(a);
    if a >= 10 {
      assert b >= 10;
      assert s[|s| - 1] == Digit(a % 10) && s[|s| - 1] == Digit(b % 10);
      assert NatToString(a / 10) == s[..|s| - 1] == NatToString(b / 10);
      NatToStringInjective(a / 10, b / 10);
    } else {
      assert Digit(a) == s[0] == Digit(b);
    }
  }

  /** `page${i}.html`, `styles${i}.css`, `file${i}.js`. */
  function Numbered(stem: string, i: nat, ext: string): string
  {
    stem + NatToString(i) + ext
  }

  lemma NumberedInjective(stem: string, i: nat, j: nat, ext: string)
    requires Numbered(stem, i, ext) == Numbered(stem, j, ext)
    ensures i == j
  {
    var x := Numbered(stem, i, ext);
    assert NatToString(i) == x[|stem|..|x| - |ext|] == NatToString(j);
    NatToStringInjective(i, j);
  }

  /** `files.some(f => f.name === name)`. */
  predicate Taken(files: seq<File>, name: string)
  {
    exists k :: 0 <= k < |files| && files[k].name == name
  }

  /** The set of the files' names: never more names than files. */
  function Names(files: seq<File>): (r: set<string>)
    ensures |r| <= |files|
    ensures forall k :: 0 <= k < |files| ==> files[k].name in r
  {
    if files == [] then {} else {files[0].name} + Names(files[1..])
  }

  lemma {:induction false} SubsetCard(a: set<string>, b: set<string>)
    requires a <= b
    ensures |a| <= |b|
    decreases |a|
  {
    if a != {} {
      var x :| x in a;
      SubsetCard(a - {x}, b - {x});
    }
  }

  /** The first `i` numbered names are `i` different names. */
  lemma {:induction false} NumberedCount(stem: string, i: nat, ext: string)
    ensures |set j | 1 <= j <= i :: Numbered(stem, j, ext)| == i
  {
    if i > 0 {
      var s := set j | 1 <= j <= i :: Numbered(stem, j, ext);
      var s' := set j | 1 <= j <= i - 1 :: Numbered(stem, j, ext);
      NumberedCount(stem, i - 1, ext);
      assert s == s' + {Numbered(stem, i, ext)};
      if Numbered(stem, i, ext) in s' {
        var j :| 1 <= j <= i - 1 && Numbered(stem, j, ext) == Numbered(stem, i, ext);
        NumberedInjective(stem, i, j, ext);
      }
    }
  }

  /** Every numbered name up to `i` taken needs at least `i` files. */
  lemma Pigeonhole(files: seq<File>, stem: string, i: nat, ext: string)
    requires forall j :: 1 <= j <= i ==> Taken(files, Numbered(stem, j, ext))
    ensures i <= |files|
  {
    var s := set j | 1 <= j <= i :: Numbered(stem, j, ext);
    NumberedCount(stem, i, ext);
    SubsetCard(s, Names(files));
  }

  /** `name` is the first numbered name no file has, and the loop stops by `|files| + 1`. */
  ghost predicate FirstFree(files: seq<File>, stem: string, ext: string, name: string)
  {
    exists i :: 1 <= i <= |files| + 1 && name == Numbered(stem, i, ext)
      && !Taken(files, name)
      && forall j :: 1 <= j < i ==> Taken(files, Numbered(stem, j, ext))
  }

  /** `let i=1; while(files.some(f => f.name === stem+i+ext)) i++;`. */
  method FirstFreeName(files: seq<File>, stem: string, ext: string) returns (name: string)
    ensures FirstFree(files, stem, ext, name)
  {
    var i := 1;
    while Taken(files, Numbered(stem, i, ext))
      invariant 1 <= i <= |files| + 1
      invariant forall j :: 1 <= j < i ==> Taken(files, Numbered(stem, j, ext))
      decreases |files| + 1 - i
    {
      Pigeonhole(files, stem, i, ext);
      i := i + 1;
    }
    name := Numbered(stem, i, ext);
  }

  /**
   * What `suggestName(ext)` must return: `index.html` or `styles.css` when
   * no file has that extension, otherwise the first free numbered name.
   */
  ghost predicate Suggested(files: seq<File>, ext: Ext, name: string)
  {
    match ext
    case HtmlExt =>
      if forall k :: 0 <= k < |files| ==> !IsHtml(files[k].name) then name == "index.html"
      else FirstFree(files, "page", ".html", name)
    case CssExt =>
      if forall k :: 0 <= k < |files| ==> !IsCss(files[k].name) then name == "styles.css"
      else FirstFree(files, "styles", ".css", name)
    case JsExt => FirstFree(files, "file", ".js", name)
  }

  /** `suggestName(ext)` over the given files: a name no file has. */
  method SuggestName(files: seq<File>, ext: Ext) returns (name: string)
    ensures Suggested(files, ext, name)
    ensures !Taken(files, name)
  {
    match ext
    case HtmlExt =>
      if forall k :: 0 <= k < |files| ==> !IsHtml(files[k].name) {
        assert IsHtml("index.html") by { assert "index.html"[5..] == ".html"; }
        return "index.html";
      }
      name := FirstFreeName(files, "page", ".html");
    case CssExt =>
      if forall k :: 0 <= k < |files| ==> !IsCss(files[k].name) {
        assert IsCss("styles.css") by { assert "styles.css"[6..] == ".css"; }
        return "styles.css";
      }
      name := FirstFreeName(files, "styles", ".css");
    case JsExt =>
      name := FirstFreeName(files, "file", ".js");
  }

  // ---------------------------------------------------------------------
  // sanitizeFilename (line 71)
  // ---------------------------------------------------------------------

  /** A character `[\w.-]` accepts: ASCII letters, digits, `_`, `.`, `-`. */
  predicate IsNameChar(c: char)
  {
    'A' <= c <= 'Z' || 'a' <= c <= 'z' || '0' <= c <= '9' || c == '_' || c == '.' || c == '-'
  }

  /** `s.replace(/[^\w\.-]/g, '_')`. */
  function Sanitize(s: string): (r: string)
    ensures |r| == |s|
    ensures forall i :: 0 <= i < |s| ==> r[i] == (if IsNameChar(s[i]) then s[i] else '_')
    ensures forall i :: 0 <= i < |r| ==> IsNameChar(r[i])
  {
    if s == [] then [] else [if IsNameChar(s[0]) then s[0] else '_'] + Sanitize(s[1..])
  }

  /** A name made of accepted characters comes through unchanged. */
  lemma SanitizeKeeps(s: string)
    requires forall i :: 0 <= i < |s| ==> IsNameChar(s[i])
    ensures Sanitize(s) == s
  {
  }

  /** Sanitizing twice is sanitizing once. */
  lemma SanitizeIdempotent(s: string)
    ensures Sanitize(Sanitize(s)) == Sanitize(s)
  {
    SanitizeKeeps(Sanitize(s));
  }

  // ---------------------------------------------------------------------
  // Finding files
  // ---------------------------------------------------------------------

  /** `files.findIndex(f => f.id === id)`. */
  function IndexOfId(files: seq<File>, id: string): (r: int)
    ensures -1 <= r < |files|
    ensures r >= 0 ==> files[r].id == id
    ensures r < 0 <==> forall k :: 0 <= k < |files| ==> files[k].id != id
    ensures r >= 0 ==> forall k :: 0 <= k < r ==> files[k].id != id
  {
    if files == [] then -1
    else if files[0].id == id then 0
    else
      var r := IndexOfId(files[1..], id);
      if r < 0 then -1 else r + 1
  }

  /** The index of the first file whose name passes `p`, -1 when none does. */
  function FirstWhere(files: seq<File>, p: string -> bool): (r: int)
    ensures -1 <= r < |files|
    ensures r >= 0 ==> p(files[r].name)
    ensures forall k :: 0 <= k < |files| && (r < 0 || k < r) ==> !p(files[k].name)
  {
    if files == [] then -1
    else if p(files[0].name) then 0
    else
      var r := FirstWhere(files[1..], p);
      if r < 0 then -1 else r + 1
  }

  predicate DistinctIds(files: seq<File>)
  {
    forall i, j :: 0 <= i < j < |files| ==> files[i].id != files[j].id
  }

  /** `files.splice(k, 1)`: entry `k` goes, the later ones move down by one. */
  function RemoveAt(files: seq<File>, k: nat): (r: seq<File>)
    requires k < |files|
    ensures |r| == |files| - 1
    ensures forall j :: 0 <= j < |r| ==> r[j] == if j < k then files[j] else files[j + 1]
  {
    files[..k] + files[k + 1..]
  }

  /** Removing one file keeps the other ids distinct. */
  lemma RemoveAtDistinct(files: seq<File>, k: nat)
    requires DistinctIds(files) && k < |files|
    ensures DistinctIds(RemoveAt(files, k))
  {
    var r := RemoveAt(files, k);
    forall i, j | 0 <= i < j < |r| ensures r[i].id != r[j].id {
      var i', j' := if i < k then i else i + 1, if j < k then j else j + 1;
      assert r[i] == files[i'] && r[j] == files[j'] && i' < j';
    }
  }

  /** Removing one file of a list with distinct ids loses exactly that file's id. */
  lemma RemoveAtIds(files: seq<File>, k: nat, id: string)
    requires DistinctIds(files) && k < |files|
    ensures IndexOfId(RemoveAt(files, k), id) >= 0 <==> IndexOfId(files, id) >= 0 && files[k].id != id
  {
    var r := RemoveAt(files, k);
    var b := IndexOfId(r, id);
    if b >= 0 {
      var b' := if b < k then b else b + 1;
      assert files[b'].id == id && b' != k;
    }
    if IndexOfId(files, id) >= 0 && files[k].id != id {
      var a := IndexOfId(files, id);
      var a' := if a < k then a else a - 1;
      assert r[a'] == files[a];
    }
  }

  /** A file with a fresh id appended: the ids stay distinct and every old id is still found. */
  lemma AppendIds(files: seq<File>, f: File, id: string)
    requires DistinctIds(files) && IndexOfId(files, f.id) < 0
    ensures DistinctIds(files + [f])
    ensures IndexOfId(files + [f], id) >= 0 <==> IndexOfId(files, id) >= 0 || f.id == id
  {
    var r := files + [f];
    if IndexOfId(files, id) >= 0 {
      assert r[IndexOfId(files, id)].id == id;
    } else if f.id == id {
      assert r[|files|].id == id;
    }
  }

  // ---------------------------------------------------------------------
  // Gathering the files' text (lines 198-201, 216-218)
  // ---------------------------------------------------------------------

  /** `pickHtmlFile()`: the first file named `index.html` in any case, else the first `.html` file. */
  function PickHtmlFile(files: seq<File>): (r: Option<File>)
    ensures r.Some? <==> exists k :: 0 <= k < |files| && IsHtml(files[k].name)
    ensures r.Some? ==> r.value in files && IsHtml(r.value.name)
    ensures (exists k :: 0 <= k < |files| && IsIndexHtml(files[k].name)) ==> r.Some? && IsIndexHtml(r.value.name)
    ensures r.Some? && IsIndexHtml(r.value.name) ==>
      exists k :: 0 <= k < |files| && files[k] == r.value &&
        forall j :: 0 <= j < k ==> !IsIndexHtml(files[j].name)
    ensures r.Some? && (forall k :: 0 <= k < |files| ==> !IsIndexHtml(files[k].name)) ==>
      exists k :: 0 <= k < |files| && files[k] == r.value &&
        forall j :: 0 <= j < k ==> !IsHtml(files[j].name)
  {
    var i := FirstWhere(files, IsIndexHtml);
    if i >= 0 then
      IndexHtmlIsHtml(files[i].name);
      Some(files[i])
    else
      var j := FirstWhere(files, IsHtml);
      if j >= 0 then Some(files[j]) else None
  }

  /** The header each gathering puts in front of a file's content. */
  datatype Header = CssHeader | JsHeader | BundleHeader

  function Section(h: Header, f: File): string
  {
    match h
    case CssHeader => "/* " + f.name + " */\n" + f.content
    case JsHeader => "// " + f.name + "\n" + f.content
    case BundleHeader => "// ==== " + f.name + " ====\n" + f.content
  }

  /** `files.map(f => header + f.content)`. */
  function Sections(files: seq<File>, h: Header): (r: seq<string>)
    ensures |r| == |files| && forall k :: 0 <= k < |files| ==> r[k] == Section(h, files[k])
  {
    if files == [] then [] else [Section(h, files[0])] + Sections(files[1..], h)
  }

  /** `files.filter(f => p(f.name))`, order kept. */
  function Filter(files: seq<File>, p: string -> bool): (r: seq<File>)
    ensures |r| <= |files|
    ensures forall f :: f in r <==> f in files && p(f.name)
  {
    if files == [] then []
    else (if p(files[0].name) then [files[0]] else []) + Filter(files[1..], p)
  }

  /** The blank line between two gathered sections. */
  const Gap: string := "\n\n"

  /** `gatherCss()`. */
  function GatherCss(files: seq<File>): string
  {
    Join(Sections(Filter(files, IsCss), CssHeader), Gap)
  }

  /** `gatherJs()`. */
  function GatherJs(files: seq<File>): string
  {
    Join(Sections(Filter(files, IsJs), JsHeader), Gap)
  }

  /** `buildBundle()`. */
  function BuildBundle(files: seq<File>): string
  {
    Join(Sections(files, BundleHeader), Gap)
  }

  lemma {:induction false} FilterAppend(a: seq<File>, b: seq<File>, p: string -> bool)
    ensures Filter(a + b, p) == Filter(a, p) + Filter(b, p)
  {
    if a != [] {
      assert (a + b)[1..] == a[1..] + b;
      FilterAppend(a[1..], b, p);
    } else {
      assert a + b == b;
    }
  }

  lemma SectionsAppend(a: seq<File>, b: seq<File>, h: Header)
    ensures Sections(a + b, h) == Sections(a, h) + Sections(b, h)
  {
  }

  /** A bundle of a non-empty list and one more file: the new file's section follows a blank line. */
  lemma BundleAppend(files: seq<File>, f: File)
    requires files != []
    ensures BuildBundle(files + [f]) == BuildBundle(files) + Gap + Section(BundleHeader, f)
  {
    SectionsAppend(files, [f], BundleHeader);
    JoinAppend(Sections(files, BundleHeader), Sections([f], BundleHeader), Gap);
  }

  /**
   * Gathering JavaScript over a list and one more file: a non-JS file adds
   * nothing; a JS file adds its section, after a blank line unless it is
   * the first.
   */
  lemma GatherJsAppend(files: seq<File>, f: File)
    ensures GatherJs(files + [f])
         == if !IsJs(f.name) then GatherJs(files)
            else if Filter(files, IsJs) == [] then Section(JsHeader, f)
            else GatherJs(files) + Gap + Section(JsHeader, f)
  {
    FilterAppend(files, [f], IsJs);
    var a := Filter(files, IsJs);
    if IsJs(f.name) {
      assert Filter([f], IsJs) == [f];
      SectionsAppend(a, [f], JsHeader);
      if a != [] {
        JoinAppend(Sections(a, JsHeader), Sections([f], JsHeader), Gap);
      } else {
        assert a + [f] == [f];
      }
    } else {
      assert Filter([f], IsJs) == [];
      assert a + [] == a;
    }
  }

  /** Gathering CSS over a list and one more file, as for JavaScript. */
  lemma GatherCssAppend(files: seq<File>, f: File)
    ensures GatherCss(files + [f])
         == if !IsCss(f.name) then GatherCss(files)
            else if Filter(files, IsCss) == [] then Section(CssHeader, f)
            else GatherCss(files) + Gap + Section(CssHeader, f)
  {
    FilterAppend(files, [f], IsCss);
    var a := Filter(files, IsCss);
    if IsCss(f.name) {
      assert Filter([f], IsCss) == [f];
      SectionsAppend(a, [f], CssHeader);
      if a != [] {
        JoinAppend(Sections(a, CssHeader), Sections([f], CssHeader), Gap);
      } else {
        assert a + [f] == [f];
      }
    } else {
      assert Filter([f], IsCss) == [];
      assert a + [] == a;
    }
  }

  /** A list without JavaScript files gathers to the empty string. */
  lemma GatherJsNone(files: seq<File>)
    requires forall k :: 0 <= k < |files| ==> !IsJs(files[k].name)
    ensures GatherJs(files) == ""
  {
  }

  // ---------------------------------------------------------------------
  // The project and its handlers
  // ---------------------------------------------------------------------

  /** What the starter files hold (lines 22-26). */
  const JsStarter: string :=
    "// Welcome to TouchDev Prototype 2\n// Try editing and tap Run \U{25B6}\n\nfunction greet(name){\n  return 'Hello, ' + name + '!';\n}\n\n// Loop example\nfor (let i=1; i<=5; i++){\n  console.log('i =', i);\n}\n\nconsole.log(greet('TouchDev'));\n"
  const HtmlStarter: string :=
    "<!doctype html>\n<html><head><meta charset=\"utf-8\"><title>TouchDev App</title></head><body>\n<h1>Hello, TouchDev</h1>\n<div id=\"app\">Edit index.html, styles.css, and JS files.</div>\n<canvas id=\"cnv\" width=\"400\" height=\"200\" style=\"border:1px solid #ccc\"></canvas>\n</body></html>"
  const CssStarter: string := "body{ font-family: system-ui; } h1{ font-size: 20px; }"

  /** The content a new file of the kind starts with (lines 53-55). */
  function StarterFor(ext: Ext): string
  {
    match ext
    case JsExt => ""
    case HtmlExt => HtmlStarter
    case CssExt => CssStarter
  }

  class Project {
    /** `project.files`, in tab order. */
    var files: seq<File>
    /** `project.activeId`. */
    var activeId: string

    /** Never without a file, ids distinct, and the active id is one of them. */
    ghost predicate Valid()
      reads this
    {
      |files| > 0 && DistinctIds(files) && IndexOfId(files, activeId) >= 0
    }

    /** The default project (lines 12-18): one `main.js` with the starter, active. */
    constructor(freshId: string)
      ensures Valid()
      ensures files == [File(freshId, "main.js", JsStarter)] && activeId == freshId
    {
      files := [File(freshId, "main.js", JsStarter)];
      activeId := freshId;
    }

    /** `getActive()`: the active file. */
    function Active(): (r: File)
      requires Valid()
      reads this
      ensures r in files && r.id == activeId
    {
      files[IndexOfId(files, activeId)]
    }

    /** `setActive(id)`; a tab's id keeps the project valid. */
    method SetActive(id: string)
      requires Valid()
      modifies this
      ensures activeId == id && files == old(files)
      ensures IndexOfId(files, id) >= 0 ==> Valid()
    {
      activeId := id;
    }

    /**
     * `removeFile(id)`: refused while one file remains, nothing for an
     * unknown id; otherwise exactly that file goes, the others keep their
     * order, and if it was active the first file becomes active.
     */
    method RemoveFile(id: string)
      requires Valid()
      modifies this
      ensures Valid()
      ensures |old(files)| == 1 || IndexOfId(old(files), id) < 0 ==>
        files == old(files) && activeId == old(activeId)
      ensures |old(files)| > 1 && IndexOfId(old(files), id) >= 0 ==>
        var k := IndexOfId(old(files), id);
        files == RemoveAt(old(files), k)
        && IndexOfId(files, id) < 0
        && activeId == (if old(activeId) == id then files[0].id else old(activeId))
    {
      if |files| == 1 {
        return;
      }
      var k := IndexOfId(files, id);
      if k < 0 {
        return;
      }
      RemoveAtDistinct(files, k);
      RemoveAtIds(files, k, id);
      RemoveAtIds(files, k, activeId);
      RemoveAtIds(files, k, files[0].id);
      files := RemoveAt(files, k);
      if activeId == id {
        activeId := files[0].id;
      }
    }

    /**
     * The `+ JS`, `+ HTML` and `+ CSS` buttons: a file with a fresh id, the
     * suggested name and the kind's starter goes at the end and becomes
     * active.
     */
    method AddFile(ext: Ext, freshId: string)
      requires Valid() && IndexOfId(files, freshId) < 0
      modifies this
      ensures Valid()
      ensures |files| == |old(files)| + 1 && files[..|old(files)|] == old(files)
      ensures var f := files[|files| - 1];
        f.id == freshId && f.content == StarterFor(ext)
        && Suggested(old(files), ext, f.name) && !Taken(old(files), f.name)
      ensures activeId == freshId
    {
      var name := SuggestName(files, ext);
      var f := File(freshId, name, StarterFor(ext));
      AppendIds(files, f, activeId);
      AppendIds(files, f, freshId);
      files := files + [f];
      SetActive(freshId);
    }

    /**
     * Renaming from a tab (line 44): the file takes the sanitized input,
     * or keeps its name when that is empty.
     */
    method Rename(id: string, input: string)
      requires Valid()
      modifies this
      ensures Valid() && activeId == old(activeId)
      ensures var k := IndexOfId(old(files), id);
        files == if k < 0 then old(files)
                 else old(files)[k := old(files)[k].(name := if input == "" then old(files)[k].name else Sanitize(input))]
    {
      var k := IndexOfId(files, id);
      if k < 0 {
        return;
      }
      var s := Sanitize(input);
      files := files[k := files[k].(name := if s == "" then files[k].name else s)];
      assert IndexOfId(files, activeId) >= 0 by {
        var a := IndexOfId(old(files), activeId);
        assert files[a].id == activeId;
      }
    }
  }
}
