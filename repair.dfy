/** What the repair scripts `fix-all-pages.py`, `fix-astro-files.py` and `cleanup-pages.py`
    share: the search for the frontmatter title, Python's `re.sub` with a replacement
    template, the placeholder section written for a page without content, and the `main()`
    loop that runs the repair over every page and counts the pages it rewrote. */
module Repair {
  import opened Text
  import opened Options
  import Seqs

  // ---------------------------------------------------------------- matches

  /** The extent of a match, `start..end`, and of its first group, `gStart..gEnd`. */
  datatype Span = Span(start: nat, gStart: nat, gEnd: nat, end: nat) {
    predicate In(s: String) {
      start <= gStart <= gEnd <= end <= |s|
    }
  }

  /** The first index at or after `i` where `pat` occurs. */
  function Find(s: String, pat: String, i: nat): (r: Option<nat>)
    ensures r.Some? ==> i <= r.value && OccursAt(s, pat, r.value)
    decreases |s| - i
  {
    if i + |pat| > |s| then None
    else if OccursAt(s, pat, i) then Some(i)
    else Find(s, pat, i + 1)
  }

  /** `Find` finds the first occurrence: any occurrence at or after `i` is found, at that
      index or before it. */
  lemma {:induction false} FindFirst(s: String, pat: String, i: nat, k: nat)
    requires i <= k && OccursAt(s, pat, k)
    ensures Find(s, pat, i).Some? && Find(s, pat, i).value <= k
    decreases |s| - i
  {
    if !OccursAt(s, pat, i) {
      FindFirst(s, pat, i + 1, k);
    }
  }

  /** The first index at or after `j` that is not whitespace, or `|s|`. */
  function SkipWs(s: String, j: nat): (k: nat)
    requires j <= |s|
    ensures j <= k <= |s| && (k < |s| ==> !IsWs(s[k]))
    decreases |s| - j
  {
    if j == |s| || !IsWs(s[j]) then j else SkipWs(s, j + 1)
  }

  // ---------------------------------------------------------------- the title

  /** `title:\s*["']?([^"']*)["']?` at `p`, where `title:` occurs. Every part after `title:`
      may be empty, so the match always succeeds, and each part takes as much as it can:
      the whitespace, one quote, the run of characters that are not quotes (the group, which
      may span lines), and one quote. */
  function TitleAt(s: String, p: nat): (m: Span)
    requires OccursAt(s, "title:", p)
    ensures m.In(s) && m.start == p && p + 6 <= m.gStart
  {
    var w := SkipWs(s, p + 6);
    var q := if w < |s| && IsQuote(s[w]) then w + 1 else w;
    var g := FirstOf(s, q, Quotes);
    Span(p, q, g, if g < |s| then g + 1 else g)
  }

  /** `re.search` of the title pattern: the match at the first `title:`. */
  function FindTitle(s: String): (r: Option<Span>)
    ensures r.Some? ==> r.value.In(s)
  {
    var p := Find(s, "title:", 0);
    if p.None? then None else Some(TitleAt(s, p.value))
  }

  /** `match.group(1)`. */
  function Group(s: String, m: Span): String
    requires m.In(s)
  {
    s[m.gStart..m.gEnd]
  }

  /** The title is found exactly when `title:` occurs, at its first occurrence, and it holds
      no quote. */
  lemma FindTitleMeans(s: String)
    ensures FindTitle(s).Some? <==> Contains(s, "title:")
    ensures FindTitle(s).Some? ==>
              var m := FindTitle(s).value;
              OccursAt(s, "title:", m.start) && (forall k :: 0 <= k < m.start ==> !OccursAt(s, "title:", k)) &&
              forall k :: 0 <= k < |Group(s, m)| ==> !IsQuote(Group(s, m)[k])
  {
    if Contains(s, "title:") {
      var k :| 0 <= k <= |s| - 6 && OccursAt(s, "title:", k);
      FindFirst(s, "title:", 0, k);
    }
    if FindTitle(s).Some? {
      var m := FindTitle(s).value;
      assert OccursAt(s, "title:", m.start);
      forall k | 0 <= k < m.start ensures !OccursAt(s, "title:", k) {
        if OccursAt(s, "title:", k) {
          FindFirst(s, "title:", 0, k);
        }
      }
      FirstOfSkips(s, m.gStart, Quotes);
      var g := Group(s, m);
      forall k | 0 <= k < |g| ensures !IsQuote(g[k]) {
        assert g[k] == s[m.gStart + k];
      }
    }
  }

  /** A quoted title: `title: "t"` gives the group `t`. */
  lemma QuotedTitle(t: String, rest: String)
    requires t != [] && !IsWs(t[0]) && forall k :: 0 <= k < |t| ==> !IsQuote(t[k])
    ensures var s := "title: \"" + t + "\"" + rest;
            FindTitle(s) == Some(Span(0, 8, 8 + |t|, 9 + |t|)) && Group(s, Span(0, 8, 8 + |t|, 9 + |t|)) == t
  {
    var s := "title: \"" + t + "\"" + rest;
    assert OccursAt(s, "title:", 0) by {
      assert s[..6] == "title:";
    }
    assert SkipWs(s, 6) == 7 by {
      assert s[6] == ' ' && s[7] == '"';
    }
    FirstOfAt(s, 8, 8 + |t|, Quotes);
  }

  // ---------------------------------------------------------------- re.sub templates

  /** The character a known escape of a replacement template stands for. */
  function KnownEscape(c: char): Option<char> {
    if c == 'a' then Some('\U{07}')
    else if c == 'b' then Some('\U{08}')
    else if c == 'f' then Some('\U{0C}')
    else if c == 'n' then Some('\n')
    else if c == 'r' then Some('\r')
    else if c == 't' then Some('\t')
    else if c == 'v' then Some('\U{0B}')
    else if c == '\\' then Some('\\')
    else None
  }

  predicate IsAsciiLetter(c: char) {
    'a' <= c <= 'z' || 'A' <= c <= 'Z'
  }

  predicate IsDigit(c: char) {
    '0' <= c <= '9'
  }

  function Prepend(a: String, r: Option<String>): Option<String> {
    if r.None? then None else Some(a + r.value)
  }

  predicate IsOctal(c: char) {
    '0' <= c <= '7'
  }

  function Oct(c: char): (v: nat)
    requires IsOctal(c)
    ensures v < 8
  {
    c as int - '0' as int
  }

  /** The text a replacement template of `re.sub` stands for, for a pattern without groups:
      a known escape becomes its character; `\0` with up to two more octal digits, or three
      octal digits up to `\377`, is the character of that code; a backslash before any other
      character that is not an ASCII letter or digit stays as written. `None` is the
      `re.error` Python raises for a backslash at the end, an unknown letter escape, an octal
      escape above `\377`, or any other digit escape, which names a group that does not exist. */
  function Expand(t: String): Option<String>
    decreases |t|
  {
    if t == [] then Some([])
    else if t[0] != '\\' then Prepend([t[0]], Expand(t[1..]))
    else if |t| == 1 then None
    else if t[1] == '0' then
      if |t| >= 3 && IsOctal(t[2]) then
        if |t| >= 4 && IsOctal(t[3]) then Prepend([(8 * Oct(t[2]) + Oct(t[3])) as char], Expand(t[4..]))
        else Prepend([Oct(t[2]) as char], Expand(t[3..]))
      else Prepend(['\0'], Expand(t[2..]))
    else if IsDigit(t[1]) then
      if |t| >= 4 && IsOctal(t[1]) && IsOctal(t[2]) && IsOctal(t[3]) then
        var v := 64 * Oct(t[1]) + 8 * Oct(t[2]) + Oct(t[3]);
        if v <= 0xFF then Prepend([v as char], Expand(t[4..])) else None
      else None
    else if KnownEscape(t[1]).Some? then Prepend([KnownEscape(t[1]).value], Expand(t[2..]))
    else if IsAsciiLetter(t[1]) then None
    else Prepend(t[..2], Expand(t[2..]))
  }

  /** Text without a backslash stands for itself, before whatever follows. */
  lemma {:induction false} ExpandPlain(a: String, b: String)
    requires '\\' !in a
    ensures Expand(a + b) == Prepend(a, Expand(b))
    decreases |a|
  {
    if a != [] {
      assert (a + b)[0] == a[0] && (a + b)[1..] == a[1..] + b;
      ExpandPlain(a[1..], b);
      assert [a[0]] + a[1..] == a;
      if Expand(b).Some? {
        AppendAssoc([a[0]], a[1..], Expand(b).value);
      }
    } else {
      assert a + b == b;
      if Expand(b).Some? {
        assert [] + Expand(b).value == Expand(b).value;
      }
    }
  }

  /** An escaped text with no backslash of its own stands for itself: each backslash the
      escaping adds comes before a quote, which the template keeps as written. */
  lemma {:induction false} ExpandEscaped(x: String, b: String)
    requires '\\' !in x
    ensures Expand(EscapeQuotes(x) + b) == Prepend(EscapeQuotes(x), Expand(b))
    decreases |x|
  {
    if x != [] {
      var e := EscapeChar(x[0]);
      var t := EscapeQuotes(x[1..]);
      assert EscapeQuotes(x) == e + t;
      ExpandEscaped(x[1..], b);
      var s := e + t + b;
      AppendAssoc(e, t, b);
      if |e| == 2 {
        assert s[0] == '\\' && s[1] == x[0] && s[..2] == e;
        assert s[2..] == t + b;
      } else {
        assert s[0] == x[0] && s[1..] == t + b;
      }
      if Expand(t + b).Some? {
        AppendAssoc(e, t, Expand(b).value);
      }
    } else {
      assert EscapeQuotes(x) + b == b;
      if Expand(b).Some? {
        assert [] + Expand(b).value == Expand(b).value;
      }
    }
  }

  /** A letter escape, a group reference and an octal escape above `\377` raise, so the
      substitution fails; known and octal escapes are translated. */
  lemma ExpandExamples()
    ensures Expand("\\d") == None
    ensures Expand("a\\nb") == Some("a\nb")
    ensures Expand("\\'") == Some("\\'")
    ensures Expand("\\101") == Some("A") && Expand("x\\0") == Some("x\0")
    ensures Expand("\\1") == None && Expand("\\400") == None
  {
    var e: String := [];
    assert Expand(e) == Some(e);
    var a := "\\101";
    assert a[1] == '1' && a[2] == '0' && a[3] == '1' && a[4..] == [];
    assert (64 * Oct('1') + 8 * Oct('0') + Oct('1')) as char == 'A' && ['A'] + e == "A";
    var z := "\\0";
    assert z[1] == '0' && |z| == 2 && z[2..] == [];
    assert ['\0'] + e == "\0" && Expand(z) == Some("\0");
    assert "x\\0"[0] == 'x' && "x\\0"[1..] == z && ['x'] + "\0" == "x\0";
    var g := "\\400";
    assert g[1] == '4' && g[2] == '0' && g[3] == '0';
    assert "b"[0] == 'b' && "b"[1..] == e && "b" + e == "b";
    assert Expand("b") == Some("b");
    assert "\\nb"[0] == '\\' && "\\nb"[1] == 'n' && "\\nb"[2..] == "b";
    assert KnownEscape('n') == Some('\n') && ['\n'] + "b" == "\nb";
    assert Expand("\\nb") == Some("\nb");
    assert ['a'] + "\nb" == "a\nb";
    assert "a\\nb"[0] == 'a' && "a\\nb"[1..] == "\\nb";
    assert KnownEscape('\'') == None && "\\'"[..2] + e == "\\'" && "\\'"[2..] == e;
    assert KnownEscape('d') == None;
  }

  /** `re.sub(pattern, rep, s, 1)` where `m` is the first match of the pattern in `s`. The
      template is compiled before the search, so a bad template raises even when nothing
      matches. */
  function SubFirst(s: String, m: Option<Span>, rep: String): Option<String>
    requires m.Some? ==> m.value.In(s)
  {
    var e := Expand(rep);
    if e.None? then None
    else if m.None? then Some(s)
    else Some(s[..m.value.start] + e.value + s[m.value.end..])
  }

  /** Only the first match is replaced: the text before and after it is kept. */
  lemma SubFirstKeeps(s: String, m: Span, rep: String)
    requires m.In(s) && Expand(rep).Some?
    ensures var r := SubFirst(s, Some(m), rep);
            r.Some? && StartsWith(r.value, s[..m.start]) && EndsWith(r.value, s[m.end..]) &&
            |r.value| == |s| - (m.end - m.start) + |Expand(rep).value|
  {
    var r := s[..m.start] + Expand(rep).value + s[m.end..];
    assert r[..m.start] == s[..m.start];
    assert r[|r| - |s[m.end..]|..] == s[m.end..];
  }

  // ---------------------------------------------------------------- the placeholder

  /** The section written for a page without content, headed by `title`. */
  function PlaceholderDiv(title: String): String {
    PlaceholderOpen + title + PlaceholderClose
  }

  const PlaceholderOpen: String :=
    "<div class='ct-section'>" + "<div class='ct-section-inner-wrap'>" + "<h2 class='ct-headline'>"
  const PlaceholderClose: String := "</h2><p>" + ComingSoon + "</p></div></div>"
  const ComingSoon: String := "Content coming soon..."

  /** The placeholder holds `---` and `import Layout` only where the title does. */
  lemma PlaceholderCounts(title: String)
    ensures CountOcc(PlaceholderDiv(title), "---") == CountOcc(title, "---")
    ensures CountOcc(PlaceholderDiv(title), "import Layout") == CountOcc(title, "import Layout")
  {
    PlaceholderDashes(title);
    PlaceholderImports(title);
  }

  lemma PlaceholderDashes(title: String)
    ensures CountOcc(PlaceholderDiv(title), "---") == CountOcc(title, "---")
  {
    PlaceholderCloseLacks();
    AppendAssoc(PlaceholderOpen, title, PlaceholderClose);
    CountOccDropLast(title, PlaceholderClose, "---", 0);
    OpenSkip(title + PlaceholderClose);
  }

  lemma PlaceholderImports(title: String)
    ensures CountOcc(PlaceholderDiv(title), "import Layout") == CountOcc(title, "import Layout")
  {
    PlaceholderOpenLacks();
    PlaceholderCloseLacks();
    CountOccFramed(PlaceholderOpen, title, PlaceholderClose, "import Layout", 9);
  }

  lemma PlaceholderOpenLacks()
    ensures 'y' !in PlaceholderOpen && PlaceholderOpen != [] && PlaceholderOpen[|PlaceholderOpen| - 1] == '>'
  {
  }

  lemma PlaceholderCloseLacks()
    ensures 'y' !in PlaceholderClose && '-' !in PlaceholderClose
    ensures PlaceholderClose != [] && PlaceholderClose[0] == '<'
  {
  }

  lemma OpenSkip(rest: String)
    ensures CountOcc(PlaceholderOpen + rest, "---") == CountOcc(rest, "---")
  {
    var p1, p2, p3 := "<div class='ct-section'>", "<div class='ct-section-inner-wrap'>", "<h2 class='ct-headline'>";
    AppendAssoc(p1 + p2, p3, rest);
    AppendAssoc(p1, p2, p3 + rest);
    HeadlineSkip(rest);
    InnerWrapSkip(p3 + rest);
    SectionSkip(p2 + (p3 + rest));
  }

  // Each opening tag of the placeholder splits into pieces no `---` fits in or straddles.
  lemma SectionSkip(rest: String)
    ensures CountOcc("<div class='ct-section'>" + rest, "---") == CountOcc(rest, "---")
  {
    var q1, q2 := "<div class='ct-s", "ection'>";
    SectionSplit();
    AppendAssoc(q1, q2, rest);
    CountOccSkipMissing(q2, rest, "---", 0);
    CountOccSkip(q1, q2 + rest, "---");
  }

  lemma InnerWrapSkip(rest: String)
    ensures CountOcc("<div class='ct-section-inner-wrap'>" + rest, "---") == CountOcc(rest, "---")
  {
    var q1, q2, q3, q4 := "<div class='ct-s", "ection-i", "nner-w", "rap'>";
    InnerWrapSplit();
    AppendAssoc(q1 + q2 + q3, q4, rest);
    AppendAssoc(q1 + q2, q3, q4 + rest);
    AppendAssoc(q1, q2, q3 + (q4 + rest));
    CountOccSkipMissing(q4, rest, "---", 0);
    CountOccSkip(q3, q4 + rest, "---");
    CountOccSkip(q2, q3 + (q4 + rest), "---");
    CountOccSkip(q1, q2 + (q3 + (q4 + rest)), "---");
  }

  lemma HeadlineSkip(rest: String)
    ensures CountOcc("<h2 class='ct-headline'>" + rest, "---") == CountOcc(rest, "---")
  {
    var q1, q2 := "<h2 class='ct-h", "eadline'>";
    HeadlineSplit();
    AppendAssoc(q1, q2, rest);
    CountOccSkipMissing(q2, rest, "---", 0);
    CountOccSkip(q1, q2 + rest, "---");
  }

  lemma SectionSplit()
    ensures "<div class='ct-section'>" == "<div class='ct-s" + "ection'>"
  {
  }

  lemma InnerWrapSplit()
    ensures "<div class='ct-section-inner-wrap'>" == "<div class='ct-s" + "ection-i" + "nner-w" + "rap'>"
  {
  }

  lemma HeadlineSplit()
    ensures "<h2 class='ct-headline'>" == "<h2 class='ct-h" + "eadline'>"
  {
  }

  /** The frontmatter fence, the layout import every page needs, and the start of it the
      repairs count. */
  const Fence: String := "---"
  const LayoutImport: String := "import Layout"
  const LayoutImportLine: String := LayoutImport + " from '../layouts/Layout.astro';"

  // ---------------------------------------------------------------- the main loop

  /** One call of the script's repair function on the file `f`: `None`, the `False` result,
      when the file cannot be read, the repair gives up without writing, or the write
      raises; otherwise the new text the file now holds. */
  function FixFile(fix: String -> Option<String>, writes: String -> bool, fs: map<String, String>,
                   f: String): Option<String>
  {
    if f !in fs then None
    else
      var t := fix(fs[f]);
      if t.Some? && writes(f) then t else None
  }

  /** The count of `True` results and the files after the loop over `files`. */
  function FixEach(fix: String -> Option<String>, writes: String -> bool, fs: map<String, String>,
                   files: seq<String>): (r: (nat, map<String, String>))
    ensures r.0 <= |files| && r.1.Keys == fs.Keys
    decreases |files|
  {
    if files == [] then (0, fs)
    else
      var p := FixEach(fix, writes, fs, files[..|files| - 1]);
      var f := files[|files| - 1];
      var t := FixFile(fix, writes, p.1, f);
      if t.Some? then (p.0 + 1, p.1[f := t.value]) else p
  }

  /** `main()`: `fixed_count` counts the files whose repair returned `True`. */
  method FixAll(fix: String -> Option<String>, writes: String -> bool, fs: map<String, String>,
                files: seq<String>) returns (count: nat, fs': map<String, String>)
    ensures (count, fs') == FixEach(fix, writes, fs, files)
  {
    count, fs' := 0, fs;
    for i := 0 to |files|
      invariant (count, fs') == FixEach(fix, writes, fs, files[..i])
    {
      assert files[..i + 1][..i] == files[..i];
      var f := files[i];
      if f in fs' {
        var t := fix(fs'[f]);
        if t.Some? && writes(f) {
          fs' := fs'[f := t.value];
          count := count + 1;
        }
      }
    }
    assert files[..|files|] == files;
  }

  /** The number of `files` whose repair, on the files `fs`, returns `True`. */
  function Successes(fix: String -> Option<String>, writes: String -> bool, fs: map<String, String>,
                     files: seq<String>): nat
    decreases |files|
  {
    if files == [] then 0
    else Successes(fix, writes, fs, files[..|files| - 1]) +
         (if FixFile(fix, writes, fs, files[|files| - 1]).Some? then 1 else 0)
  }

  /** Over distinct files, each file is repaired from its original text: the count is the
      number of files whose repair returned `True`, each of them holds its repaired text, and
      every other file is as it was. */
  lemma {:induction false} FixEachDistinct(fix: String -> Option<String>, writes: String -> bool,
                                           fs: map<String, String>, files: seq<String>)
    requires Seqs.Distinct(files)
    ensures var r := FixEach(fix, writes, fs, files);
            && r.0 == Successes(fix, writes, fs, files)
            && (forall f :: f in fs && f in files && FixFile(fix, writes, fs, f).Some? ==>
                              r.1[f] == FixFile(fix, writes, fs, f).value)
            && (forall f :: f in fs && (f !in files || FixFile(fix, writes, fs, f).None?) ==> r.1[f] == fs[f])
    decreases |files|
  {
    if files != [] {
      var init, f := files[..|files| - 1], files[|files| - 1];
      assert Seqs.Distinct(init);
      assert f !in init;
      FixEachDistinct(fix, writes, fs, init);
      var p := FixEach(fix, writes, fs, init);
      assert FixFile(fix, writes, p.1, f) == FixFile(fix, writes, fs, f);
      forall g | g in files ensures g in init || g == f {
        var k :| 0 <= k < |files| && files[k] == g;
        if k < |init| { assert init[k] == g; }
      }
    }
  }
}
