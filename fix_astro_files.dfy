/** `fix-astro-files.py`: a page that uses `set:html=` without a template literal gets its
    unquoted titles quoted (when one of them holds `&`, `<` or `>`) and every
    `<div set:html=X />` rewritten to use a template literal. The regular expressions are
    written out as scanners over the suffixes of the text: none of them looks behind its
    start, so whether one matches at an index depends only on the text from there on. */
module FixAstroFiles {
  import opened Text
  import opened Options
  import Repair

  const HtmlAttr: String := "set:html="
  const TemplateAttr: String := "set:html={`"

  /** The file needs fixing: it uses `set:html=` and never ``set:html={` ``. */
  predicate Broken(content: String) {
    Contains(content, HtmlAttr) && !Contains(content, TemplateAttr)
  }

  // ---------------------------------------------------------------- titles

  const TitleKey: String := "title: "
  /** The characters `[^"'\n]` excludes. */
  const TitleStops: set<char> := {'"', '\'', '\n'}
  /** The characters `[&<>]` stands for. */
  const Marks: set<char> := {'&', '<', '>'}
  /** Where the run `[^"\n]*` can end: a character it excludes or one of `Marks`. */
  const RunStops: set<char> := {'"', '\n', '&', '<', '>'}

  /** `title: [^"'][^"\n]*[&<>]` matches at the start of `s`. The middle run can give back
      characters, so the match exists exactly when the first character after the start that
      is `"`, a line feed or a mark is a mark. */
  predicate NeedsAt(s: String) {
    StartsWith(s, TitleKey) && |s| > 8 && !IsQuote(s[7]) &&
    var k := FirstOf(s, 8, RunStops); k < |s| && s[k] in Marks
  }

  /** `re.search` of that pattern. */
  predicate NeedsQuotes(s: String)
    decreases |s|
  {
    s != [] && (NeedsAt(s) || NeedsQuotes(s[1..]))
  }

  /** The match of the pattern at `i` ending with the mark at `k`, stated as the regular
      expression reads. */
  ghost predicate NeedsMatch(s: String, i: int, k: int) {
    OccursAt(s, TitleKey, i) && i + 8 <= k < |s| && !IsQuote(s[i + 7]) && s[k] in Marks &&
    forall m :: i + 8 <= m < k ==> s[m] != '"' && s[m] != '\n'
  }

  lemma NeedsAtMeans(s: String)
    ensures NeedsAt(s) <==> exists k :: NeedsMatch(s, 0, k)
  {
    if NeedsAt(s) {
      var k := FirstOf(s, 8, RunStops);
      FirstOfSkips(s, 8, RunStops);
      assert s[0..7] == s[..7];
      assert NeedsMatch(s, 0, k);
    }
    if exists k :: NeedsMatch(s, 0, k) {
      var k :| NeedsMatch(s, 0, k);
      assert StartsWith(s, TitleKey) by {
        assert s[0..7] == s[..7];
      }
      FirstOfSkips(s, 8, RunStops);
      var f := FirstOf(s, 8, RunStops);
      assert f <= k;
    }
  }

  /** A match at `i > 0` of `s` is a match at `i - 1` of its tail. */
  lemma NeedsMatchShift(s: String, i: int, k: int)
    requires s != [] && i >= 1
    ensures NeedsMatch(s, i, k) <==> NeedsMatch(s[1..], i - 1, k - 1)
  {
    if i + 7 <= |s| {
      assert s[1..][i - 1..i - 1 + 7] == s[i..i + 7];
    }
    if NeedsMatch(s[1..], i - 1, k - 1) {
      forall m | i + 8 <= m < k ensures s[m] != '"' && s[m] != '\n' {
        assert s[m] == s[1..][m - 1];
      }
    }
  }

  /** The search finds a match exactly when the pattern matches somewhere. */
  lemma {:induction false} NeedsQuotesMeans(s: String)
    ensures NeedsQuotes(s) <==> exists i, k :: NeedsMatch(s, i, k)
    decreases |s|
  {
    if s != [] {
      NeedsQuotesMeans(s[1..]);
      NeedsAtMeans(s);
      if exists i, k :: NeedsMatch(s, i, k) {
        var i, k :| NeedsMatch(s, i, k);
        if i >= 1 {
          NeedsMatchShift(s, i, k);
        } else {
          assert NeedsMatch(s, 0, k);
        }
      }
      if exists i, k :: NeedsMatch(s[1..], i, k) {
        var i, k :| NeedsMatch(s[1..], i, k);
        NeedsMatchShift(s, i + 1, k + 1);
      }
    }
  }

  /** `title: ([^"'\n]+)` matches at the start of `s`. */
  predicate QuoteAt(s: String) {
    StartsWith(s, TitleKey) && |s| > 7 && s[7] !in TitleStops
  }

  /** `re.sub(r'title: ([^"\'\n]+)', r'title: "\1"', s)`: every match, left to right, with
      its group, the longest run of characters that are not quotes or line feeds, put in
      double quotes. */
  function QuoteTitles(s: String): String
    decreases |s|
  {
    if s == [] then []
    else if QuoteAt(s) then
      var g := FirstOf(s, 7, TitleStops);
      TitleKey + "\"" + s[7..g] + "\"" + QuoteTitles(s[g..])
    else [s[0]] + QuoteTitles(s[1..])
  }

  /** Text where the pattern matches nowhere is copied. */
  lemma {:induction false} QuoteTitlesCopies(p: String, rest: String)
    requires forall i :: 0 <= i < |p| ==> !QuoteAt((p + rest)[i..])
    ensures QuoteTitles(p + rest) == p + QuoteTitles(rest)
    decreases |p|
  {
    if p != [] {
      assert !QuoteAt((p + rest)[0..]) by {
        assert (p + rest)[0..] == p + rest;
      }
      assert (p + rest)[1..] == p[1..] + rest;
      forall i | 0 <= i < |p[1..]| ensures !QuoteAt((p[1..] + rest)[i..]) {
        assert (p[1..] + rest)[i..] == (p + rest)[i + 1..];
      }
      QuoteTitlesCopies(p[1..], rest);
    }
  }

  /** Without `title: ` the text is left as it is. */
  lemma {:induction false} QuoteTitlesNoKey(s: String)
    requires !Contains(s, TitleKey)
    ensures QuoteTitles(s) == s
    decreases |s|
  {
    if s != [] {
      ContainsShift(s, TitleKey);
      QuoteTitlesNoKey(s[1..]);
    }
  }

  /** An unquoted title `v`, ended by a quote, a line feed or the end of the text, is put in
      double quotes, and the scan goes on after it. */
  lemma QuoteTitlesLine(v: String, rest: String)
    requires v != [] && (forall m :: 0 <= m < |v| ==> v[m] !in TitleStops)
    requires rest == [] || rest[0] in TitleStops
    ensures QuoteTitles(TitleKey + v + rest) == TitleKey + "\"" + v + "\"" + QuoteTitles(rest)
  {
    var s := TitleKey + v + rest;
    assert s[..7] == TitleKey && s[7] == v[0];
    forall m | 7 <= m < 7 + |v| ensures s[m] !in TitleStops {
      assert s[m] == v[m - 7];
    }
    if rest != [] {
      assert s[7 + |v|] == rest[0];
    }
    FirstOfAt(s, 7, 7 + |v|, TitleStops);
    assert s[7..7 + |v|] == v && s[7 + |v|..] == rest;
  }

  // ---------------------------------------------------------------- set:html divs

  const DivOpen: String := "<div set:html="
  const DivClose: String := " />"
  const TemplateOpen: String := "<div set:html={`"
  const TemplateClose: String := "`} />"

  /** Where the group of `<div set:html=([^>]+) />` ends when the pattern matches at the start
      of `s`: the group cannot hold `>`, and ` />` ends in `>`, so the only candidate is two
      characters before the first `>` after `<div set:html=`. */
  function DivGroupEnd(s: String): (g: int)
    requires StartsWith(s, DivOpen)
  {
    FirstOf(s, 14, {'>'}) - 2
  }

  predicate DivAt(s: String) {
    StartsWith(s, DivOpen) &&
    var g := DivGroupEnd(s); 14 < g && g + 3 <= |s| && s[g..g + 3] == DivClose
  }

  /** The match at the start of `s` with the group ending at `g`, as the regular expression
      reads it. */
  ghost predicate DivMatch(s: String, g: int) {
    StartsWith(s, DivOpen) && 14 < g && g + 3 <= |s| && s[g..g + 3] == DivClose &&
    forall m :: 14 <= m < g ==> s[m] != '>'
  }

  /** The pattern matches at the start exactly when some group end fits, and that end is
      the one `DivAt` tries. */
  lemma DivAtMeans(s: String)
    ensures DivAt(s) <==> exists g :: DivMatch(s, g)
    ensures forall g :: DivMatch(s, g) ==> g == DivGroupEnd(s)
  {
    if StartsWith(s, DivOpen) {
      FirstOfSkips(s, 14, {'>'});
      var e := FirstOf(s, 14, {'>'});
      if DivAt(s) {
        assert DivMatch(s, e - 2);
      }
      forall g | DivMatch(s, g) ensures g == e - 2 {
        assert s[g + 2] == s[g..g + 3][2] == '>';
        assert s[g] == ' ' && s[g + 1] == '/';
        FirstOfAt(s, 14, g + 2, {'>'});
      }
    }
  }

  /** `re.sub(r'<div set:html=([^>]+) />', r'<div set:html={`\1`} />', s)`. */
  function SubDivs(s: String): String
    decreases |s|
  {
    if s == [] then []
    else if DivAt(s) then
      var g := DivGroupEnd(s);
      TemplateOpen + s[14..g] + TemplateClose + SubDivs(s[g + 3..])
    else [s[0]] + SubDivs(s[1..])
  }

  /** Where the pattern matches nowhere the text is left as it is. */
  lemma {:induction false} SubDivsNoMatch(s: String)
    requires forall i :: 0 <= i < |s| ==> !DivAt(s[i..])
    ensures SubDivs(s) == s
    decreases |s|
  {
    if s != [] {
      assert s[0..] == s;
      forall i | 0 <= i < |s[1..]| ensures !DivAt(s[1..][i..]) {
        assert s[1..][i..] == s[i + 1..];
      }
      SubDivsNoMatch(s[1..]);
    }
  }

  /** One `<div set:html=x />` with `x` free of `>` is rewritten, and the scan goes on
      after it. */
  lemma SubDivsOne(x: String, rest: String)
    requires x != [] && '>' !in x
    ensures SubDivs(DivOpen + x + DivClose + rest) == TemplateOpen + x + TemplateClose + SubDivs(rest)
  {
    var s := DivOpen + x + DivClose + rest;
    var g := 14 + |x|;
    assert s[..14] == DivOpen;
    assert s[14..g] == x;
    assert s[g..g + 3] == DivClose;
    assert s[g + 3..] == rest;
    forall m | 14 <= m < g + 2 ensures s[m] != '>' {
      if m < g { assert s[m] == x[m - 14]; } else { assert s[m] == DivClose[m - g]; }
    }
    FirstOfAt(s, 14, g + 2, {'>'});
  }

  /** A match anywhere leaves a template literal in the result. */
  lemma {:induction false} SubDivsMarks(s: String, i: nat)
    requires i < |s| && DivAt(s[i..])
    ensures Contains(SubDivs(s), TemplateAttr)
    decreases |s|
  {
    if DivAt(s) {
      var g := DivGroupEnd(s);
      var r := TemplateOpen + s[14..g] + TemplateClose + SubDivs(s[g + 3..]);
      assert r[5..16] == TemplateAttr;
      assert OccursAt(r, TemplateAttr, 5);
    } else {
      assert i > 0 by {
        assert s[0..] == s;
      }
      assert s[1..][i - 1..] == s[i..];
      SubDivsMarks(s[1..], i - 1);
      ContainsShift([s[0]] + SubDivs(s[1..]), TemplateAttr);
      assert ([s[0]] + SubDivs(s[1..]))[1..] == SubDivs(s[1..]);
    }
  }

  // ---------------------------------------------------------------- the repair

  /** The text after the title step: quoted only when some title needs it. */
  function TitlesFixed(content: String): String {
    if NeedsQuotes(content) then QuoteTitles(content) else content
  }

  /** `fix_astro_file` on the text of one file: the new text, written whenever the file is
      broken, or `None` for the `False` result. */
  function FixAstroFile(content: String): (r: Option<String>)
    ensures r.Some? <==> Broken(content)
    ensures r.Some? ==> r.value == SubDivs(TitlesFixed(content))
  {
    if Broken(content) then Some(SubDivs(TitlesFixed(content))) else None
  }

  /** Titles are left alone unless one of them holds `&`, `<` or `>`. */
  lemma TitlesKeptUnlessMarked(content: String)
    requires !exists i, k :: NeedsMatch(content, i, k)
    ensures TitlesFixed(content) == content
  {
    NeedsQuotesMeans(content);
  }

  /** Once a div has been rewritten, a second run finds the template literal and does
      nothing. */
  lemma SecondRunNoop(content: String, i: nat)
    requires Broken(content)
    requires i < |TitlesFixed(content)| && DivAt(TitlesFixed(content)[i..])
    ensures FixAstroFile(FixAstroFile(content).value).None?
  {
    SubDivsMarks(TitlesFixed(content), i);
  }

  /** `main()` over the list of pages. */
  method FixAllFiles(writes: String -> bool, fs: map<String, String>, files: seq<String>)
    returns (count: nat, fs': map<String, String>)
    ensures (count, fs') == Repair.FixEach(FixAstroFile, writes, fs, files)
  {
    count, fs' := Repair.FixAll(FixAstroFile, writes, fs, files);
  }
}
