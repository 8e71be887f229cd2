/** `cleanup-pages.py`: a page whose text holds more than two `---` fences or more than one
    layout import is replaced by the canonical page for its title. */
module CleanupPages {
  import opened Text
  import opened Options
  import Repair


  /** The file has duplicated frontmatter: `content.count('---') > 2` or
      `content.count('import Layout') > 1`. */
  predicate Duplicated(content: String) {
    CountOcc(content, Repair.Fence) > 2 || CountOcc(content, Repair.LayoutImport) > 1
  }

  // ---------------------------------------------------------------- the canonical page

  /** A line, its line feed, and the lines after it. */
  function Line(l: String, rest: String): String {
    l + "\n" + rest
  }

  const TitleOpen: String := "const title = \""
  const TitleClose: String := "\";"
  const DescriptionLine: String := "const description = '';"
  const LayoutOpen: String := "<Layout {title} {description}>"
  const ProseOpen: String := "  <div class=\"prose max-w-none\">"
  const HeadingOpen: String := "    <h1>"
  const HeadingClose: String := "</h1>"
  const SetHtmlOpen: String := "    <div set:html={`"
  const SetHtmlClose: String := "`} />"
  const ProseClose: String := "  </div>"
  const LayoutClose: String := "</Layout>"

  /** The page written for the title `t`: thirteen lines, the last without a line feed, with
      `t` in the title constant, the heading and the placeholder section. */
  function CleanPage(t: String): String {
    Line(Repair.Fence,
    Line(Repair.LayoutImportLine,
    Line("",
    Line(TitleOpen + t + TitleClose,
    Line(DescriptionLine,
    Line(Repair.Fence,
    Line("",
    Line(LayoutOpen,
    Line(ProseOpen,
    Line(HeadingOpen + t + HeadingClose,
    Line(SetHtmlOpen + Repair.PlaceholderDiv(t) + SetHtmlClose,
    Line(ProseClose,
    LayoutClose))))))))))))
  }

  // ---------------------------------------------------------------- the repair

  /** `clean_astro_file` on the text of one file: the new text when the file is rewritten,
      `None` when the function returns `False` without writing. */
  function CleanAstroFile(content: String): (r: Option<String>)
    ensures r.Some? <==> Duplicated(content) && TitleOf(content).Some? && TitleOf(content).value != []
    ensures r.Some? ==> r.value == CleanPage(TitleOf(content).value)
  {
    if !Duplicated(content) then None
    else
      match Repair.FindTitle(content)
      case None => None
      case Some(m) =>
        var t := Strip(Repair.Group(content, m));
        if t == [] then None else Some(CleanPage(t))
  }

  /** The title the page is rebuilt for: the first `title:` match, its group stripped. */
  function TitleOf(content: String): Option<String> {
    match Repair.FindTitle(content)
    case None => None
    case Some(m) => Some(Strip(Repair.Group(content, m)))
  }

  /** Without a `title:` anywhere, nothing is written, however duplicated the file. */
  lemma NoTitleNoRewrite(content: String)
    requires !Contains(content, "title:")
    ensures CleanAstroFile(content).None?
  {
    Repair.FindTitleMeans(content);
  }

  /** `clean_astro_file` over the list of pages. */
  method CleanAll(writes: String -> bool, fs: map<String, String>, files: seq<String>)
    returns (count: nat, fs': map<String, String>)
    ensures (count, fs') == Repair.FixEach(CleanAstroFile, writes, fs, files)
  {
    count, fs' := Repair.FixAll(CleanAstroFile, writes, fs, files);
  }

  // ---------------------------------------------------------------- a second run

  /** The canonical page holds the two fences and one `---` per copy of the title. */
  lemma CleanPageFences(t: String)
    ensures CountOcc(CleanPage(t), Repair.Fence) == 2 + 3 * CountOcc(t, Repair.Fence)
  {
    var r12 := Line(ProseClose, LayoutClose);
    var r11 := Line(SetHtmlOpen + Repair.PlaceholderDiv(t) + SetHtmlClose, r12);
    var r10 := Line(HeadingOpen + t + HeadingClose, r11);
    var r9 := Line(ProseOpen, r10);
    var r8 := Line(LayoutOpen, r9);
    var r7 := Line("", r8);
    var r6 := Line(Repair.Fence, r7);
    var r5 := Line(DescriptionLine, r6);
    var r4 := Line(TitleOpen + t + TitleClose, r5);
    var r3 := Line("", r4);
    var r2 := Line(Repair.LayoutImportLine, r3);
    LastLinesFences(t);
    TitledLinesFences(t, r11, r5);
    ProseOpenSkip(r10);
    LayoutOpenFences(r9);
    EmptyLineFences(r8);
    DescriptionFences(r6);
    EmptyLineFences(r4);
    ImportLineFences(r3);
    LineFence(r7);
    LineFence(r2);
  }

  lemma LastLinesFences(t: String)
    ensures CountOcc(Line(SetHtmlOpen + Repair.PlaceholderDiv(t) + SetHtmlClose, Line(ProseClose, LayoutClose)), Repair.Fence)
         == CountOcc(t, Repair.Fence)
  {
    LineFramedEnd(SetHtmlOpen, Repair.PlaceholderDiv(t), SetHtmlClose, Line(ProseClose, LayoutClose), Repair.Fence, 0);
    Repair.PlaceholderDashes(t);
  }

  lemma TitledLinesFences(t: String, r11: String, r5: String)
    ensures CountOcc(Line(HeadingOpen + t + HeadingClose, r11), Repair.Fence) == CountOcc(t, Repair.Fence) + CountOcc(r11, Repair.Fence)
    ensures CountOcc(Line(TitleOpen + t + TitleClose, r5), Repair.Fence) == CountOcc(t, Repair.Fence) + CountOcc(r5, Repair.Fence)
  {
    LineFramed(HeadingOpen, t, HeadingClose, r11, Repair.Fence, 0);
    LineFramed(TitleOpen, t, TitleClose, r5, Repair.Fence, 0);
  }

  // The fixed lines hold no `---`.
  lemma LayoutOpenFences(rest: String)
    ensures CountOcc(Line(LayoutOpen, rest), Repair.Fence) == CountOcc(rest, Repair.Fence)
  {
    LineSkip(LayoutOpen, rest, Repair.Fence, 0);
  }

  lemma EmptyLineFences(rest: String)
    ensures CountOcc(Line("", rest), Repair.Fence) == CountOcc(rest, Repair.Fence)
  {
    LineSkip("", rest, Repair.Fence, 0);
  }

  lemma DescriptionFences(rest: String)
    ensures CountOcc(Line(DescriptionLine, rest), Repair.Fence) == CountOcc(rest, Repair.Fence)
  {
    LineSkip(DescriptionLine, rest, Repair.Fence, 0);
  }

  lemma ImportLineFences(rest: String)
    ensures CountOcc(Line(Repair.LayoutImportLine, rest), Repair.Fence) == CountOcc(rest, Repair.Fence)
  {
    LineSkip(Repair.LayoutImportLine, rest, Repair.Fence, 0);
  }

  /** The canonical page holds the one import and one `import Layout` per copy of the title. */
  lemma CleanPageImports(t: String)
    ensures CountOcc(CleanPage(t), Repair.LayoutImport) == 1 + 3 * CountOcc(t, Repair.LayoutImport)
  {
    var r12 := Line(ProseClose, LayoutClose);
    var r11 := Line(SetHtmlOpen + Repair.PlaceholderDiv(t) + SetHtmlClose, r12);
    var r10 := Line(HeadingOpen + t + HeadingClose, r11);
    var r9 := Line(ProseOpen, r10);
    var r8 := Line(LayoutOpen, r9);
    var r7 := Line("", r8);
    var r6 := Line(Repair.Fence, r7);
    var r5 := Line(DescriptionLine, r6);
    var r4 := Line(TitleOpen + t + TitleClose, r5);
    var r3 := Line("", r4);
    var r2 := Line(Repair.LayoutImportLine, r3);
    LastLinesImports(t);
    TitledLinesImports(t, r11, r5);
    ProseOpenImports(r10);
    LayoutOpenImports(r9);
    EmptyLineImports(r8);
    FenceImports(r7);
    DescriptionImports(r6);
    EmptyLineImports(r4);
    FenceImports(r2);
    LineImport(r3);
  }

  lemma LastLinesImports(t: String)
    ensures CountOcc(Line(SetHtmlOpen + Repair.PlaceholderDiv(t) + SetHtmlClose, Line(ProseClose, LayoutClose)), Repair.LayoutImport)
         == CountOcc(t, Repair.LayoutImport)
  {
    LineFramedEnd(SetHtmlOpen, Repair.PlaceholderDiv(t), SetHtmlClose, Line(ProseClose, LayoutClose), Repair.LayoutImport, 2);
    Repair.PlaceholderImports(t);
  }

  lemma TitledLinesImports(t: String, r11: String, r5: String)
    ensures CountOcc(Line(HeadingOpen + t + HeadingClose, r11), Repair.LayoutImport)
         == CountOcc(t, Repair.LayoutImport) + CountOcc(r11, Repair.LayoutImport)
    ensures CountOcc(Line(TitleOpen + t + TitleClose, r5), Repair.LayoutImport)
         == CountOcc(t, Repair.LayoutImport) + CountOcc(r5, Repair.LayoutImport)
  {
    LineFramed(HeadingOpen, t, HeadingClose, r11, Repair.LayoutImport, 9);
    LineFramed(TitleOpen, t, TitleClose, r5, Repair.LayoutImport, 9);
  }

  // The fixed lines other than the import hold no `import Layout`.
  lemma ProseOpenImports(rest: String)
    ensures CountOcc(Line(ProseOpen, rest), Repair.LayoutImport) == CountOcc(rest, Repair.LayoutImport)
  {
    LineSkip(ProseOpen, rest, Repair.LayoutImport, 9);
  }

  lemma LayoutOpenImports(rest: String)
    ensures CountOcc(Line(LayoutOpen, rest), Repair.LayoutImport) == CountOcc(rest, Repair.LayoutImport)
  {
    LineSkip(LayoutOpen, rest, Repair.LayoutImport, 1);
  }

  lemma EmptyLineImports(rest: String)
    ensures CountOcc(Line("", rest), Repair.LayoutImport) == CountOcc(rest, Repair.LayoutImport)
  {
    LineSkip("", rest, Repair.LayoutImport, 0);
  }

  lemma FenceImports(rest: String)
    ensures CountOcc(Line(Repair.Fence, rest), Repair.LayoutImport) == CountOcc(rest, Repair.LayoutImport)
  {
    LineSkip(Repair.Fence, rest, Repair.LayoutImport, 0);
  }

  lemma DescriptionImports(rest: String)
    ensures CountOcc(Line(DescriptionLine, rest), Repair.LayoutImport) == CountOcc(rest, Repair.LayoutImport)
  {
    LineSkip(DescriptionLine, rest, Repair.LayoutImport, 9);
  }

  lemma LineImport(rest: String)
    ensures CountOcc(Line(Repair.LayoutImportLine, rest), Repair.LayoutImport) == 1 + CountOcc(rest, Repair.LayoutImport)
  {
    LineFound(" from '../layouts/Layout.astro';", rest, Repair.LayoutImport, 2);
  }

  /** A cleaned page whose title holds neither `---` nor `import Layout` is left alone by a
      second run. */
  lemma SecondRunNoop(t: String)
    requires !Contains(t, Repair.Fence) && !Contains(t, Repair.LayoutImport)
    ensures !Duplicated(CleanPage(t))
    ensures CleanAstroFile(CleanPage(t)).None?
  {
    CountOccPositive(t, Repair.Fence);
    CountOccPositive(t, Repair.LayoutImport);
    CleanPageFences(t);
    CleanPageImports(t);
  }

  // ---------------------------------------------------------------- counting line by line

  /** A line missing the character `pat[j]` adds nothing in front of the lines after it. */
  lemma LineSkip(l: String, rest: String, pat: String, j: nat)
    requires j < |pat| && pat[j] !in l && '\n' !in pat
    ensures CountOcc(Line(l, rest), pat) == CountOcc(rest, pat)
  {
    CountOccSkipMissing(l + "\n", rest, pat, j);
  }

  /** A line that starts with `pat` and then misses `pat[j]` adds one occurrence. */
  lemma LineFound(x: String, rest: String, pat: String, j: nat)
    requires j < |pat| && pat[j] !in x && '\n' !in pat
    ensures CountOcc(Line(pat + x, rest), pat) == 1 + CountOcc(rest, pat)
  {
    AppendAssoc(pat, x, "\n");
    AppendAssoc(pat, x + "\n", rest);
    CountOccPrefix(pat, Line(x, rest));
    LineSkip(x, rest, pat, j);
  }

  lemma LineFence(rest: String)
    ensures CountOcc(Line(Repair.Fence, rest), Repair.Fence) == 1 + CountOcc(rest, Repair.Fence)
  {
    var e: String := [];
    assert Repair.Fence + e == Repair.Fence;
    LineFound(e, rest, Repair.Fence, 0);
  }

  /** A line `a + t + b` whose fixed parts miss `pat[j]` adds the occurrences in `t`. */
  lemma LineFramed(a: String, t: String, b: String, rest: String, pat: String, j: nat)
    requires j < |pat| && pat[j] !in a && pat[j] !in b && '\n' !in pat
    requires a != [] && a[|a| - 1] !in pat && b != [] && b[0] !in pat
    ensures CountOcc(Line(a + t + b, rest), pat) == CountOcc(t, pat) + CountOcc(rest, pat)
  {
    AppendAssoc(a + t, b, "\n");
    CountOccAppend(a + t + b + "\n", rest, pat);
    CountOccFramed(a, t, b + "\n", pat, j);
  }

  /** The same for a line followed only by fixed lines that miss `pat[j]`. */
  lemma LineFramedEnd(a: String, t: String, b: String, z: String, pat: String, j: nat)
    requires j < |pat| && pat[j] !in a && pat[j] !in b && pat[j] !in z && '\n' !in pat
    requires a != [] && a[|a| - 1] !in pat && b != [] && b[0] !in pat
    ensures CountOcc(Line(a + t + b, z), pat) == CountOcc(t, pat)
  {
    AppendAssoc(a + t, b, "\n");
    AppendAssoc(a + t, b + "\n", z);
    CountOccFramed(a, t, b + "\n" + z, pat, j);
  }

  /** `max-w-none` holds single dashes only: split after the character following each one. */
  lemma ProseOpenSkip(rest: String)
    ensures CountOcc(Line(ProseOpen, rest), Repair.Fence) == CountOcc(rest, Repair.Fence)
  {
    var u, v, w := "  <div class=\"prose max-w", "-n", "one\">";
    ProseOpenSplit();
    AppendAssoc(u + v, w, "\n");
    AppendAssoc(u + v, w + "\n", rest);
    AppendAssoc(u, v, Line(w, rest));
    LineSkip(w, rest, Repair.Fence, 0);
    CountOccSkip(v, Line(w, rest), Repair.Fence);
    CountOccSkip(u, v + Line(w, rest), Repair.Fence);
  }

  lemma ProseOpenSplit()
    ensures ProseOpen == "  <div class=\"prose max-w" + "-n" + "one\">"
  {
  }
}
