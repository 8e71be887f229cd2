/** `fix-all-pages.py`: every page gets its title rewritten in double quotes, its `set:html`
    div wrapped in a template literal (or a placeholder section when it has no content), and
    the layout import when it lacks one. The three searches it makes are the lazy patterns
    `open(.*?)close`, written out by `Lazy`. */
module FixAllPages {
  import opened Text
  import opened Options
  import Repair

  // ---------------------------------------------------------------- lazy matches

  /** `open` at `p`, then `close` at `q`, with only characters other than line feeds between
      them unless `.` matches everything (`re.DOTALL`). */
  ghost predicate Fits(s: String, open: String, close: String, dotall: bool, p: int, q: int) {
    OccursAt(s, open, p) && p + |open| <= q && OccursAt(s, close, q) &&
    (dotall || forall m :: p + |open| <= m < q ==> s[m] != '\n')
  }

  /** The first match at or after `i` of `open(.*?)close`: the leftmost start, and at it the
      first `close` after `open`; a start whose first `close` comes after a line feed (without
      `re.DOTALL`) has no match at all, and the search moves on. */
  function Lazy(s: String, open: String, close: String, dotall: bool, i: nat): (r: Option<Repair.Span>)
    requires open != [] && i <= |s|
    ensures r.Some? ==> r.value.In(s) && r.value.gStart == r.value.start + |open| &&
                        r.value.end == r.value.gEnd + |close|
    decreases |s| - i
  {
    match Repair.Find(s, open, i)
    case None => None
    case Some(p) =>
      if Reachable(s, close, dotall, p + |open|) then Some(MatchAt(s, open, close, dotall, p))
      else Lazy(s, open, close, dotall, p + 1)
  }

  /** The first `close` at or after `j` exists and, without `re.DOTALL`, no line feed comes
      before it. */
  predicate Reachable(s: String, close: String, dotall: bool, j: nat) {
    var q := Repair.Find(s, close, j);
    q.Some? && (dotall || '\n' !in s[j..q.value])
  }

  /** The match that starts with `open` at `p` and ends at the first reachable `close`. */
  function MatchAt(s: String, open: String, close: String, dotall: bool, p: nat): (m: Repair.Span)
    requires OccursAt(s, open, p) && Reachable(s, close, dotall, p + |open|)
    ensures m.In(s) && m.start == p && m.gStart == p + |open| && m.end == m.gEnd + |close|
  {
    var q := Repair.Find(s, close, p + |open|).value;
    Repair.Span(p, p + |open|, q, q + |close|)
  }

  /** `Find` gives no index before the first occurrence. */
  lemma FindNothingBefore(s: String, pat: String, i: nat)
    ensures Repair.Find(s, pat, i).None? ==> forall k :: i <= k && OccursAt(s, pat, k) ==> false
    ensures Repair.Find(s, pat, i).Some? ==> forall k :: i <= k < Repair.Find(s, pat, i).value ==> !OccursAt(s, pat, k)
  {
    forall k | i <= k && OccursAt(s, pat, k)
      ensures Repair.Find(s, pat, i).Some? && Repair.Find(s, pat, i).value <= k
    {
      Repair.FindFirst(s, pat, i, k);
    }
  }

  /** The pattern fits somewhere at or after `i`. */
  ghost predicate FitsFrom(s: String, open: String, close: String, dotall: bool, i: int) {
    exists p, q :: i <= p && Fits(s, open, close, dotall, p, q)
  }

  /** `m` is the match `re.search` reports from `i` on: no fit starts before it, and at its
      start no fit ends sooner. */
  ghost predicate FirstFit(s: String, open: String, close: String, dotall: bool, i: int, m: Repair.Span) {
    i <= m.start && Fits(s, open, close, dotall, m.start, m.gEnd) &&
    (forall p, q :: i <= p < m.start ==> !Fits(s, open, close, dotall, p, q)) &&
    (forall q :: Fits(s, open, close, dotall, m.start, q) ==> m.gEnd <= q)
  }

  /** `Lazy` finds a match exactly when the pattern fits somewhere at or after `i`. */
  lemma {:induction false} LazyFinds(s: String, open: String, close: String, dotall: bool, i: nat)
    requires open != [] && i <= |s|
    ensures Lazy(s, open, close, dotall, i).Some? <==> FitsFrom(s, open, close, dotall, i)
    decreases |s| - i
  {
    var f := Repair.Find(s, open, i);
    if f.None? {
      NoOpenNoFit(s, open, close, dotall, i);
    } else if Reachable(s, close, dotall, f.value + |open|) {
      HitFits(s, open, close, dotall, i, f.value);
    } else {
      LazyFinds(s, open, close, dotall, f.value + 1);
      MissFits(s, open, close, dotall, i, f.value);
    }
  }

  lemma HitFits(s: String, open: String, close: String, dotall: bool, i: nat, p: nat)
    requires open != [] && i <= |s|
    requires Repair.Find(s, open, i) == Some(p) && Reachable(s, close, dotall, p + |open|)
    ensures Lazy(s, open, close, dotall, i).Some? && FitsFrom(s, open, close, dotall, i)
  {
    HitFirst(s, open, close, dotall, i, p);
    FitAtFirst(s, open, close, dotall, i, p);
  }

  lemma MissFits(s: String, open: String, close: String, dotall: bool, i: nat, p: nat)
    requires open != [] && i <= |s|
    requires Repair.Find(s, open, i) == Some(p) && !Reachable(s, close, dotall, p + |open|)
    requires Lazy(s, open, close, dotall, p + 1).Some? <==> FitsFrom(s, open, close, dotall, p + 1)
    ensures Lazy(s, open, close, dotall, i).Some? <==> FitsFrom(s, open, close, dotall, i)
  {
    MissStep(s, open, close, dotall, i, p);
    NoFitAt(s, open, close, dotall, p);
    MissMovesOn(s, open, close, dotall, i, p);
  }

  /** The match `Lazy` finds is the leftmost, and at that start the shortest. */
  lemma {:induction false} LazyFirst(s: String, open: String, close: String, dotall: bool, i: nat)
    requires open != [] && i <= |s|
    ensures Lazy(s, open, close, dotall, i).Some? ==> FirstFit(s, open, close, dotall, i, Lazy(s, open, close, dotall, i).value)
    decreases |s| - i
  {
    var f := Repair.Find(s, open, i);
    if f.None? {
      NoOpenNoFit(s, open, close, dotall, i);
    } else if Reachable(s, close, dotall, f.value + |open|) {
      HitFirst(s, open, close, dotall, i, f.value);
    } else {
      LazyFirst(s, open, close, dotall, f.value + 1);
      MissFirst(s, open, close, dotall, i, f.value);
    }
  }

  lemma MissFirst(s: String, open: String, close: String, dotall: bool, i: nat, p: nat)
    requires open != [] && i <= |s|
    requires Repair.Find(s, open, i) == Some(p) && !Reachable(s, close, dotall, p + |open|)
    requires p + 1 <= |s|
    requires var r := Lazy(s, open, close, dotall, p + 1);
             r.Some? ==> FirstFit(s, open, close, dotall, p + 1, r.value)
    ensures var r := Lazy(s, open, close, dotall, i);
            r.Some? ==> FirstFit(s, open, close, dotall, i, r.value)
  {
    MissStep(s, open, close, dotall, i, p);
    var r := Lazy(s, open, close, dotall, p + 1);
    if r.Some? {
      NoFitAt(s, open, close, dotall, p);
      MissKeepsFirst(s, open, close, dotall, i, p, r.value);
    }
  }

  lemma HitFirst(s: String, open: String, close: String, dotall: bool, i: nat, p: nat)
    requires open != [] && i <= |s|
    requires Repair.Find(s, open, i) == Some(p) && Reachable(s, close, dotall, p + |open|)
    ensures Lazy(s, open, close, dotall, i) == Some(MatchAt(s, open, close, dotall, p))
    ensures FirstFit(s, open, close, dotall, i, MatchAt(s, open, close, dotall, p))
  {
    LazyHit(s, open, close, dotall, i, p);
    FitAtFirst(s, open, close, dotall, i, p);
  }

  /** A start whose first `close` is reachable is the match. */
  lemma LazyHit(s: String, open: String, close: String, dotall: bool, i: nat, p: nat)
    requires open != [] && i <= |s|
    requires Repair.Find(s, open, i) == Some(p) && Reachable(s, close, dotall, p + |open|)
    ensures Lazy(s, open, close, dotall, i) == Some(MatchAt(s, open, close, dotall, p))
  {
  }

  /** A start without a reachable `close` hands the search on. */
  lemma MissStep(s: String, open: String, close: String, dotall: bool, i: nat, p: nat)
    requires open != [] && i <= |s|
    requires Repair.Find(s, open, i) == Some(p) && !Reachable(s, close, dotall, p + |open|)
    ensures Lazy(s, open, close, dotall, i) == Lazy(s, open, close, dotall, p + 1)
  {
  }

  lemma NoOpenNoFit(s: String, open: String, close: String, dotall: bool, i: nat)
    requires open != [] && i <= |s| && Repair.Find(s, open, i).None?
    ensures Lazy(s, open, close, dotall, i).None? && !FitsFrom(s, open, close, dotall, i)
  {
    FindNothingBefore(s, open, i);
    forall p, q | i <= p && Fits(s, open, close, dotall, p, q) ensures false {
    }
  }

  /** At the first start, when its first `close` is reachable, that is the match. */
  lemma FitAtFirst(s: String, open: String, close: String, dotall: bool, i: nat, p: nat)
    requires Repair.Find(s, open, i) == Some(p) && Reachable(s, close, dotall, p + |open|)
    ensures FitsFrom(s, open, close, dotall, i) && FirstFit(s, open, close, dotall, i, MatchAt(s, open, close, dotall, p))
  {
    var q := Repair.Find(s, close, p + |open|).value;
    ShortestAt(s, open, close, dotall, p);
    NothingBefore(s, open, close, dotall, i, p);
    assert MatchAt(s, open, close, dotall, p).gEnd == q;
  }

  lemma ShortestAt(s: String, open: String, close: String, dotall: bool, p: nat)
    requires OccursAt(s, open, p) && Reachable(s, close, dotall, p + |open|)
    ensures var q := Repair.Find(s, close, p + |open|).value;
            Fits(s, open, close, dotall, p, q) && forall q' :: Fits(s, open, close, dotall, p, q') ==> q <= q'
  {
    var q := Repair.Find(s, close, p + |open|).value;
    FindNothingBefore(s, close, p + |open|);
    if !dotall {
      forall m | p + |open| <= m < q ensures s[m] != '\n' {
        assert s[m] == s[p + |open|..q][m - p - |open|];
      }
    }
  }

  lemma NothingBefore(s: String, open: String, close: String, dotall: bool, i: nat, p: nat)
    requires Repair.Find(s, open, i) == Some(p)
    ensures forall p', q' :: i <= p' < p ==> !Fits(s, open, close, dotall, p', q')
  {
    FindNothingBefore(s, open, i);
    forall p', q' | i <= p' < p ensures !Fits(s, open, close, dotall, p', q') {
      assert !OccursAt(s, open, p');
    }
  }

  /** A first start without a fit passes the search on to the next index. */
  lemma MissMovesOn(s: String, open: String, close: String, dotall: bool, i: nat, p: nat)
    requires Repair.Find(s, open, i) == Some(p)
    requires forall q :: !Fits(s, open, close, dotall, p, q)
    ensures FitsFrom(s, open, close, dotall, i) <==> FitsFrom(s, open, close, dotall, p + 1)
  {
    NothingBefore(s, open, close, dotall, i, p);
  }

  /** ... and the first fit after it is the first fit from `i`. */
  lemma MissKeepsFirst(s: String, open: String, close: String, dotall: bool, i: nat, p: nat, m: Repair.Span)
    requires Repair.Find(s, open, i) == Some(p)
    requires forall q :: !Fits(s, open, close, dotall, p, q)
    requires FirstFit(s, open, close, dotall, p + 1, m)
    ensures FirstFit(s, open, close, dotall, i, m)
  {
    NothingBefore(s, open, close, dotall, i, p);
  }

  /** At a start whose first `close` is missing or comes after a line feed, the pattern does
      not fit at all. */
  lemma NoFitAt(s: String, open: String, close: String, dotall: bool, p: nat)
    requires OccursAt(s, open, p) && !Reachable(s, close, dotall, p + |open|)
    ensures forall q' :: !Fits(s, open, close, dotall, p, q')
  {
    var q := Repair.Find(s, close, p + |open|);
    FindNothingBefore(s, close, p + |open|);
    if q.Some? {
      forall q' | Fits(s, open, close, dotall, p, q') ensures false {
      }
    }
  }

  // ---------------------------------------------------------------- the searches

  const DivOpen: String := "<div set:html="
  const DivClose: String := " />"
  const HeadingOpen: String := "<h1>"
  const HeadingClose: String := "</h1>"

  /** `re.search(r'<div set:html=(.*?) />', content, re.DOTALL)`. */
  function ContentMatch(s: String): Option<Repair.Span> {
    Lazy(s, DivOpen, DivClose, true, 0)
  }

  /** `<div set:html=.*? />` as `re.sub` finds it: `.` stops at line feeds. */
  function DivMatch(s: String): Option<Repair.Span> {
    Lazy(s, DivOpen, DivClose, false, 0)
  }

  /** `<h1>.*?</h1>` as `re.sub` finds it. */
  function HeadingMatch(s: String): Option<Repair.Span> {
    Lazy(s, HeadingOpen, HeadingClose, false, 0)
  }

  // ---------------------------------------------------------------- the set:html content

  /** Content is a template literal when it starts and ends with a backtick. */
  predicate Backticked(c: String) {
    StartsWith(c, "`") && EndsWith(c, "`")
  }

  /** Content that is not a template literal loses its edge backticks and gets one pair. */
  function Wrap(c: String): (r: String)
    ensures Backticked(r)
    ensures Backticked(c) ==> r == c
  {
    if Backticked(c) then c else "`" + StripChar(c, '`') + "`"
  }

  /** Wrapping twice is wrapping once. */
  lemma WrapIdempotent(c: String)
    ensures Wrap(Wrap(c)) == Wrap(c)
  {
  }

  /** Content that is not a template literal ends up inside exactly one pair of backticks:
      what is between them neither starts nor ends with one. */
  lemma WrapOnePair(c: String)
    requires !Backticked(c)
    ensures exists m :: Wrap(c) == "`" + m + "`" && (m == [] || (m[0] != '`' && m[|m| - 1] != '`'))
  {
    var m := StripChar(c, '`');
    assert Wrap(c) == "`" + m + "`";
  }

  /** The placeholder content: the placeholder section as a template literal. */
  function Placeholder(esc: String): (r: String)
    ensures Backticked(r)
  {
    "`" + Repair.PlaceholderDiv(esc) + "`"
  }

  /** The placeholder shows the escaped title and says the content is coming. */
  lemma PlaceholderShows(esc: String)
    ensures Contains(Placeholder(esc), esc)
    ensures Contains(Placeholder(esc), Repair.ComingSoon)
  {
    var d := Repair.PlaceholderDiv(esc);
    ContainsMiddle(Repair.PlaceholderOpen, esc, Repair.PlaceholderClose);
    ContainsWithin("`", d, "`", esc);
    ContainsMiddle("</h2><p>", Repair.ComingSoon, "</p></div></div>");
    var a := "`" + Repair.PlaceholderOpen + esc;
    AppendAssoc("`", Repair.PlaceholderOpen + esc, Repair.PlaceholderClose);
    AppendAssoc("`", Repair.PlaceholderOpen, esc);
    ContainsWithin(a, Repair.PlaceholderClose, "`", Repair.ComingSoon);
  }

  /** `escaped_html_content`: the stripped group of the first `set:html` div, as a template
      literal, or the placeholder when there is no div or its content is empty or `=`. */
  function HtmlBody(content: String, esc: String): (r: String)
    ensures Backticked(r)
  {
    match ContentMatch(content)
    case None => Placeholder(esc)
    case Some(m) =>
      var c := Strip(Repair.Group(content, m));
      if c != [] && c != "=" then Wrap(c) else Placeholder(esc)
  }

  /** Div content that already is a template literal is copied as it is. */
  lemma HtmlBodyKeepsTemplate(content: String, esc: String)
    requires ContentMatch(content).Some?
    requires var c := Strip(Repair.Group(content, ContentMatch(content).value));
             Backticked(c) && c != "="
    ensures HtmlBody(content, esc) == Strip(Repair.Group(content, ContentMatch(content).value))
  {
  }

  /** Without a div, or with an empty or `=` one, the page shows the placeholder: its title
      and the coming-soon line. */
  lemma HtmlBodyPlaceholder(content: String, esc: String)
    requires ContentMatch(content).Some? ==>
               var c := Strip(Repair.Group(content, ContentMatch(content).value));
               c == [] || c == "="
    ensures Contains(HtmlBody(content, esc), esc) && Contains(HtmlBody(content, esc), Repair.ComingSoon)
  {
    PlaceholderShows(esc);
  }

  // ---------------------------------------------------------------- the import

  const LayoutOpen: String := "<Layout>"
  const LayoutProps: String := "<Layout {title} {description}>"

  /** What replaces every `---` when the import is missing: the fence, the import and the
      two constants. */
  function ImportBlock(esc: String): String {
    Repair.Fence + "\n" + Repair.LayoutImportLine + "\n\nconst title = \"" + esc + "\";\nconst description = '';"
  }

  /** Lines 66-68: the import block after every fence and the props on every bare `<Layout>`,
      unless the import is already there. */
  function AddImport(s: String, esc: String): String {
    if Contains(s, Repair.LayoutImportLine) then s
    else ReplaceAll(ReplaceAll(s, Repair.Fence, ImportBlock(esc)), LayoutOpen, LayoutProps)
  }

  /** A page that has the import is left as it is. */
  lemma AddImportPresent(s: String, esc: String)
    requires Contains(s, Repair.LayoutImportLine)
    ensures AddImport(s, esc) == s
  {
  }

  /** A page without a fence and without a bare `<Layout>` is left as it is too. */
  lemma AddImportNowhere(s: String, esc: String)
    requires !Contains(s, Repair.Fence) && !Contains(s, LayoutOpen)
    ensures AddImport(s, esc) == s
  {
    ReplaceAbsent(s, Repair.Fence, ImportBlock(esc));
    ReplaceAbsent(s, LayoutOpen, LayoutProps);
  }

  /** A page with a fence but without the import gets the import: the block put in for the
      fence holds it, and the `<Layout>` rewrite cannot touch it. */
  lemma AddImportAdds(s: String, esc: String)
    requires !Contains(s, Repair.LayoutImportLine) && Contains(s, Repair.Fence)
    ensures Contains(AddImport(s, esc), Repair.LayoutImportLine)
  {
    var t := ReplaceAll(s, Repair.Fence, ImportBlock(esc));
    ReplaceIntroduces(s, Repair.Fence, ImportBlock(esc));
    ImportBlockHolds(esc);
    ContainsTrans(t, ImportBlock(esc), Repair.LayoutImportLine);
    LayoutOpenApart();
    ReplaceKeeps(t, LayoutOpen, LayoutProps, Repair.LayoutImportLine);
  }

  /** So on a page with a fence, a second insertion leaves the page alone. */
  lemma AddImportOnce(s: String, esc: String, esc': String)
    requires Contains(s, Repair.Fence)
    ensures AddImport(AddImport(s, esc), esc') == AddImport(s, esc)
  {
    if !Contains(s, Repair.LayoutImportLine) {
      AddImportAdds(s, esc);
    }
  }

  lemma ImportBlockHolds(esc: String)
    ensures Contains(ImportBlock(esc), Repair.LayoutImportLine)
  {
    var a := Repair.Fence + "\n";
    var b := "\n\nconst title = \"" + esc + "\";\nconst description = '';";
    assert ImportBlock(esc) == a + Repair.LayoutImportLine + b;
    ContainsMiddle(a, Repair.LayoutImportLine, b);
  }

  lemma LayoutOpenApart()
    ensures Repair.LayoutImportLine != [] && Repair.LayoutImportLine[0] !in LayoutOpen
    ensures LayoutOpen != [] && LayoutOpen[0] !in Repair.LayoutImportLine
  {
  }

  // ---------------------------------------------------------------- the repair

  function TitleTemplate(esc: String): String {
    "title: \"" + esc + "\""
  }

  /** `fix_astro_file` on the text of one file: `None` for the `False` result, which comes
      from a missing or empty title, or from a replacement template `re.sub` rejects. */
  function FixPage(content: String): (r: Option<String>)
    ensures r.Some? ==> Repair.FindTitle(content).Some? &&
                        Strip(Repair.Group(content, Repair.FindTitle(content).value)) != []
  {
    match Repair.FindTitle(content)
    case None => None
    case Some(m) =>
      var t := Strip(Repair.Group(content, m));
      if t == [] then None
      else
        var esc := EscapeQuotes(t);
        var body := HtmlBody(content, esc);
        var s1 := Repair.SubFirst(content, Some(m), TitleTemplate(esc));
        if s1.None? then None
        else
          var s2 :=
            if ContentMatch(content).Some? then
              Repair.SubFirst(s1.value, DivMatch(s1.value), DivOpen + body + DivClose)
            else
              Repair.SubFirst(s1.value, HeadingMatch(s1.value),
                              HeadingOpen + esc + HeadingClose + "\n    " + DivOpen + body + DivClose);
          if s2.None? then None else Some(AddImport(s2.value, esc))
  }

  /** A title without backslashes always survives the template: the first title match, and
      only it, is replaced by the escaped title in double quotes. */
  lemma TitleStep(content: String)
    requires Repair.FindTitle(content).Some?
    requires var m := Repair.FindTitle(content).value; '\\' !in Strip(Repair.Group(content, m))
    ensures var m := Repair.FindTitle(content).value;
            var esc := EscapeQuotes(Strip(Repair.Group(content, m)));
            Repair.SubFirst(content, Some(m), TitleTemplate(esc)) ==
              Some(content[..m.start] + TitleTemplate(esc) + content[m.end..])
  {
    var m := Repair.FindTitle(content).value;
    TitleTemplateExpands(Strip(Repair.Group(content, m)));
  }

  /** `re.sub` reads the template of an escaped title without backslashes as itself. */
  lemma TitleTemplateExpands(t: String)
    requires '\\' !in t
    ensures Repair.Expand(TitleTemplate(EscapeQuotes(t))) == Some(TitleTemplate(EscapeQuotes(t)))
  {
    var e: String := [];
    Repair.ExpandPlain("title: \"", EscapeQuotes(t) + "\"");
    Repair.ExpandEscaped(t, "\"");
    Repair.ExpandPlain("\"", e);
    assert "\"" + e == "\"";
    AppendAssoc("title: \"", EscapeQuotes(t), "\"");
  }

  /** `main()` over the list of pages. */
  method FixAllFiles(writes: String -> bool, fs: map<String, String>, files: seq<String>)
    returns (count: nat, fs': map<String, String>)
    ensures (count, fs') == Repair.FixEach(FixPage, writes, fs, files)
  {
    count, fs' := Repair.FixAll(FixPage, writes, fs, files);
  }
}
