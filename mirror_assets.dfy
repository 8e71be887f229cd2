/** `src/scripts/mirror-assets.js`: every same-origin link, script and image URL named in the
    saved pages is downloaded below the output directory, and every stylesheet among them is
    scanned for `url(...)` references, which are downloaded in turn. `new URL`, `fetch`, the
    list of saved pages and the file system are supplied by the caller; the three regular
    expressions the script uses are modelled as the scans they perform. */
module MirrorAssets {
  import opened Text
  import opened Options
  import opened Html
  import Paths
  import Seqs

  type Path = Paths.Path

  /** What a mirrored file holds: the text of a stylesheet or the bytes of any other asset. */
  datatype Body = TextBody(text: String) | BinaryBody(bytes: seq<bv8>)

  /** The libraries and the outside world as the script sees them. */
  datatype Env = Env(
    resolve: (String, String) -> Option<Url>,  // new URL(u, base); None when it throws
    parse: String -> Option<Url>,              // new URL(u)
    read: Path -> String,                      // fs.readFileSync(file, 'utf8')
    fetchText: String -> Option<String>,       // fetchText(url): the text of an ok response
    fetchBinary: String -> Option<seq<bv8>>,   // fetchBinary(url): the bytes of an ok response
    writes: Path -> bool,                      // writeFileSync(dest, ...) succeeds
    walk: Path -> seq<Path>)                   // walkHtmlFiles(dir)

  // ---------------------------------------------------------------- command line

  datatype Args = Args(from: String, base: String, out: String)

  const Defaults: Args := Args("src/pages/site", "", "public")

  predicate IsFromFlag(a: String) {
    a == "--from" || a == "-f"
  }

  predicate IsBaseFlag(a: String) {
    a == "--base" || a == "-b"
  }

  predicate IsOutFlag(a: String) {
    a == "--out" || a == "-o"
  }

  /** The options after scanning `argv` from index `i` on: a flag takes the next argument
      and the scan resumes after it; a flag with nothing after it keeps the value it had. */
  function ScanArgs(argv: seq<String>, i: nat, acc: Args): Args
    decreases |argv| - i
  {
    if i >= |argv| then acc
    else
      var next := if i + 1 < |argv| then Some(argv[i + 1]) else None;
      if IsFromFlag(argv[i]) then ScanArgs(argv, i + 2, acc.(from := next.GetOr(acc.from)))
      else if IsBaseFlag(argv[i]) then ScanArgs(argv, i + 2, acc.(base := next.GetOr(acc.base)))
      else if IsOutFlag(argv[i]) then ScanArgs(argv, i + 2, acc.(out := next.GetOr(acc.out)))
      else ScanArgs(argv, i + 1, acc)
  }

  /** What `parseArgs` returns: `None` for the usage error of an empty base, otherwise the
      options with one trailing `/` taken off the base. */
  function Parsed(argv: seq<String>): Option<Args> {
    var a := ScanArgs(argv, 2, Defaults);
    if a.base == [] then None else Some(a.(base := DropOneTrailing(a.base, '/')))
  }

  /** `parseArgs(argv)`; `None` is the exit with the usage message. */
  method ParseArgs(argv: seq<String>) returns (r: Option<Args>)
    ensures r == Parsed(argv)
  {
    var args := Defaults;
    var i := 2;
    while i < |argv|
      invariant 2 <= i
      invariant ScanArgs(argv, i, args) == ScanArgs(argv, 2, Defaults)
      decreases |argv| - i
    {
      var a := argv[i];
      if IsFromFlag(a) {
        i := i + 1;
        args := args.(from := if i < |argv| then argv[i] else args.from);
      } else if IsBaseFlag(a) {
        i := i + 1;
        args := args.(base := if i < |argv| then argv[i] else args.base);
      } else if IsOutFlag(a) {
        i := i + 1;
        args := args.(out := if i < |argv| then argv[i] else args.out);
      }
      i := i + 1;
    }
    if args.base == [] {
      return None;
    }
    r := Some(args.(base := DropOneTrailing(args.base, '/')));
  }

  /** Without a base flag from `i` on, the base stays what it was. */
  lemma {:induction false} ScanKeepsBase(argv: seq<String>, i: nat, acc: Args)
    requires forall j :: i <= j < |argv| ==> !IsBaseFlag(argv[j])
    ensures ScanArgs(argv, i, acc).base == acc.base
    decreases |argv| - i
  {
    if i < |argv| {
      var next := if i + 1 < |argv| then Some(argv[i + 1]) else None;
      if IsFromFlag(argv[i]) {
        ScanKeepsBase(argv, i + 2, acc.(from := next.GetOr(acc.from)));
      } else if IsOutFlag(argv[i]) {
        ScanKeepsBase(argv, i + 2, acc.(out := next.GetOr(acc.out)));
      } else {
        ScanKeepsBase(argv, i + 1, acc);
      }
    }
  }

  /** Without `--base` or `-b` the script stops with its usage message. */
  lemma MissingBaseFails(argv: seq<String>)
    requires forall j :: 2 <= j < |argv| ==> !IsBaseFlag(argv[j])
    ensures Parsed(argv).None?
  {
    ScanKeepsBase(argv, 2, Defaults);
  }

  /** Given only a base, the options are the base without one trailing slash, the pages
      under `src/pages/site` and the output directory `public`. */
  lemma BaseOnly(node: String, script: String, base: String)
    requires base != []
    ensures Parsed([node, script, "--base", base]) ==
            Some(Args("src/pages/site", DropOneTrailing(base, '/'), "public"))
  {
    var argv := [node, script, "--base", base];
    assert IsBaseFlag(argv[2]);
    assert ScanArgs(argv, 2, Defaults) == ScanArgs(argv, 4, Defaults.(base := base));
  }

  /** A trailing `--base` with no value leaves the base empty, so the script stops. */
  lemma TrailingBaseFails(node: String, script: String)
    ensures Parsed([node, script, "--base"]).None?
  {
    var argv := [node, script, "--base"];
    assert IsBaseFlag(argv[2]);
    assert ScanArgs(argv, 2, Defaults) == ScanArgs(argv, 4, Defaults);
  }

  /** Exactly one trailing slash is taken off the base. */
  lemma OneSlashDropped(node: String, script: String, base: String)
    requires base != [] && base[|base| - 1] != '/'
    ensures var r := Parsed([node, script, "--base", base + "/"]); r.Some? && r.value.base == base
    ensures var r := Parsed([node, script, "--base", base + "//"]); r.Some? && r.value.base == base + "/"
  {
    BaseOnly(node, script, base + "/");
    BaseOnly(node, script, base + "//");
    assert (base + "/")[..|base|] == base;
    assert (base + "//")[..|base| + 1] == base + "/";
  }

  // ---------------------------------------------------------------- URLs and paths

  /** `isFromOrigin(u, origin)`: `u` parses on its own and has that origin. */
  predicate IsFromOrigin(env: Env, u: String, origin: String) {
    env.parse(u).Some? && env.parse(u).value.origin == origin
  }

  /** The file for a pathname: one leading `/` dropped, the rest joined below `outRoot`. */
  function LocalPath(outRoot: Path, pathname: String): Path {
    Paths.JoinPath(outRoot, if StartsWith(pathname, "/") then pathname[1..] else pathname)
  }

  /** `toLocalPath(outRoot, urlStr)`; `None` when `new URL(urlStr)` throws. */
  function ToLocalPath(env: Env, outRoot: Path, u: String): Option<Path> {
    match env.parse(u)
    case None => None
    case Some(a) => Some(LocalPath(outRoot, a.pathname))
  }

  /** A pathname `/a/b/c.css` is mirrored to `<outRoot>/a/b/c.css`. */
  lemma LocalPathBelow(outRoot: Path, p: Path)
    requires Paths.Normal(p)
    ensures LocalPath(outRoot, Paths.Render(p)) == outRoot + p
  {
    var r := Paths.Render(p);
    assert StartsWith(r, "/") && r[1..] == Join(p, '/');
    Paths.JoinJoined(outRoot, p);
    Paths.ResolveNames(outRoot, p);
  }

  /** The query and the fragment of a URL play no part in where it is mirrored. */
  lemma LocalPathIgnoresQuery(env: Env, outRoot: Path, u: String, v: String, search: String, hash: String)
    requires env.parse(u).Some?
    requires env.parse(v) == Some(env.parse(u).value.(search := search, hash := hash))
    ensures ToLocalPath(env, outRoot, v) == ToLocalPath(env, outRoot, u)
  {
  }

  // ---------------------------------------------------------------- scanning the pages

  /** The value of `attr` written at `q`: the attribute name and `=` in any case, a quote of
      either kind, one or more characters that are not quotes, and a quote of either kind.
      The result is the interval of the value. */
  function ValueAt(s: String, q: nat, attr: String): (r: Option<(nat, nat)>)
    requires q <= |s|
    ensures r.Some? ==> q + |attr| + 1 == r.value.0 < r.value.1 < |s|
    ensures r.Some? ==> forall m :: r.value.0 <= m < r.value.1 ==> !IsQuote(s[m])
  {
    var b := q + |attr| + 1;
    if b <= |s| && StartsWithCi(s[q..], attr) && IsQuote(s[b - 1]) then
      var f := FirstOf(s, b, Quotes);
      FirstOfSkips(s, b, Quotes);
      if b < f < |s| then Some((b, f)) else None
    else None
  }

  /** `[^>]+` followed by the attribute: the run is tried from its longest, so the value is
      the one whose attribute name starts last in `lo..hi`. */
  function LastValue(s: String, lo: nat, hi: nat, attr: String): (r: Option<(nat, nat)>)
    requires lo <= hi <= |s|
    ensures r.Some? ==> lo + |attr| + 1 <= r.value.0 < r.value.1 < |s|
    ensures r.Some? ==> forall m :: r.value.0 <= m < r.value.1 ==> !IsQuote(s[m])
    decreases hi - lo
  {
    if hi == lo then None
    else
      var v := ValueAt(s, hi - 1, attr);
      if v.Some? then v else LastValue(s, lo, hi - 1, attr)
  }

  /** The regular expression `<tag[^>]+attr["']([^"']+)["']`, case-insensitive, tried at
      `p`: `open` is `<tag` and `attr` is the attribute name with its `=`. Between the tag
      name and the attribute there is at least one character and no `>`; the character at
      the first `>` cannot start an attribute name, so the runs end before it. */
  function MatchAt(s: String, p: nat, open: String, attr: String): (r: Option<(nat, nat)>)
    requires p <= |s| && open != []
    ensures r.Some? ==> p + |open| + |attr| + 2 <= r.value.0 < r.value.1 < |s|
    ensures r.Some? ==> forall m :: r.value.0 <= m < r.value.1 ==> !IsQuote(s[m])
  {
    if StartsWithCi(s[p..], open) then
      var e := FirstOf(s, p + |open|, {'>'});
      if p + |open| + 1 <= e then LastValue(s, p + |open| + 1, e, attr) else None
    else None
  }

  /** `html.matchAll(re)` from index `i`: the captured values, in order; each search
      resumes after the closing quote of the last match. */
  function Captures(s: String, open: String, attr: String, i: nat): (r: seq<String>)
    requires i <= |s| && open != []
    ensures forall k :: 0 <= k < |r| ==> r[k] != [] && forall m :: 0 <= m < |r[k]| ==> !IsQuote(r[k][m])
    decreases |s| - i
  {
    if i == |s| then []
    else
      var m := MatchAt(s, i, open, attr);
      if m.Some? then
        var rest := Captures(s, open, attr, m.value.1 + 1);
        var c := s[m.value.0..m.value.1];
        assert forall j :: 0 <= j < |c| ==> c[j] == s[m.value.0 + j];
        [c] + rest
      else Captures(s, open, attr, i + 1)
  }

  /** The `href` of `new URL(u, base)` for each `u` that parses, in order. */
  function Hrefs(env: Env, us: seq<String>, base: String): seq<String>
    decreases |us|
  {
    if us == [] then []
    else
      var r := env.resolve(us[|us| - 1], base);
      Hrefs(env, us[..|us| - 1], base) + (if r.Some? then [r.value.href] else [])
  }

  /** An URL is among the hrefs exactly when some input resolves to it. */
  lemma {:induction false} HrefsMeans(env: Env, us: seq<String>, base: String, x: String)
    ensures x in Hrefs(env, us, base) <==>
            exists k :: 0 <= k < |us| && env.resolve(us[k], base).Some? && env.resolve(us[k], base).value.href == x
    decreases |us|
  {
    if us != [] {
      var init := us[..|us| - 1];
      HrefsMeans(env, init, base, x);
      if x in Hrefs(env, init, base) {
        var k :| 0 <= k < |init| && env.resolve(init[k], base).Some? && env.resolve(init[k], base).value.href == x;
        assert us[k] == init[k];
      }
      if exists k :: 0 <= k < |us| && env.resolve(us[k], base).Some? && env.resolve(us[k], base).value.href == x {
        var k :| 0 <= k < |us| && env.resolve(us[k], base).Some? && env.resolve(us[k], base).value.href == x;
        if k < |init| { assert init[k] == us[k]; }
      }
    }
  }

  /** The values the three scans find: link targets, then script sources, then images. */
  function AssetRefs(html: String): seq<String> {
    Captures(html, "<link", "href=", 0) + Captures(html, "<script", "src=", 0)
      + Captures(html, "<img", "src=", 0)
  }

  /** `extractAssetUrlsFromHtml(html, base)`: the distinct absolute URLs, in the order of
      their first mention. */
  function ExtractAssetUrls(env: Env, html: String, base: String): (r: seq<String>)
    ensures Seqs.Distinct(r)
  {
    Seqs.Dedup(Hrefs(env, AssetRefs(html), base))
  }

  /** A page names an asset URL exactly when one of the scanned values resolves to it. */
  lemma ExtractAssetUrlsMeans(env: Env, html: String, base: String, x: String)
    ensures x in ExtractAssetUrls(env, html, base) <==>
            exists k :: 0 <= k < |AssetRefs(html)| && env.resolve(AssetRefs(html)[k], base).Some? &&
                        env.resolve(AssetRefs(html)[k], base).value.href == x
  {
    HrefsMeans(env, AssetRefs(html), base, x);
  }

  /** Every scanned value is not empty and holds no quote. */
  lemma AssetRefsUnquoted(html: String)
    ensures forall k :: 0 <= k < |AssetRefs(html)| ==>
              AssetRefs(html)[k] != [] && forall m :: 0 <= m < |AssetRefs(html)[k]| ==> !IsQuote(AssetRefs(html)[k][m])
  {
    var a := Captures(html, "<link", "href=", 0);
    var b := Captures(html, "<script", "src=", 0);
    var c := Captures(html, "<img", "src=", 0);
    forall k | 0 <= k < |a + b + c| ensures (a + b + c)[k] == if k < |a| then a[k] else if k < |a| + |b| then b[k - |a|] else c[k - |a| - |b|] { }
  }

  /** The tail `attr["']([^"']+)["']` of the pattern written at `q`, its value closed by
      the quote at `f`. */
  predicate ValueIs(s: String, q: nat, attr: String, f: nat) {
    q + |attr| + 1 < f < |s| && StartsWithCi(s[q..], attr) && IsQuote(s[q + |attr|]) &&
    IsQuote(s[f]) && forall m :: q + |attr| + 1 <= m < f ==> !IsQuote(s[m])
  }

  /** `ValueAt` finds exactly the value the pattern's tail describes. */
  lemma ValueAtMeans(s: String, q: nat, attr: String, f: nat)
    requires q <= |s|
    ensures ValueAt(s, q, attr) == Some((q + |attr| + 1, f)) <==> ValueIs(s, q, attr, f)
  {
    var b := q + |attr| + 1;
    if ValueIs(s, q, attr, f) {
      FirstOfAt(s, b, f, Quotes);
    }
  }

  /** No value at `q`: `ValueAt` finds none exactly when the tail matches nowhere at `q`. */
  lemma ValueAtNone(s: String, q: nat, attr: String)
    requires q <= |s|
    ensures ValueAt(s, q, attr).None? <==> forall f :: !ValueIs(s, q, attr, f)
  {
    if ValueAt(s, q, attr).Some? {
      ValueAtMeans(s, q, attr, ValueAt(s, q, attr).value.1);
    } else {
      forall f ensures !ValueIs(s, q, attr, f) {
        ValueAtMeans(s, q, attr, f);
      }
    }
  }

  /** No value of `attr` starts in `lo..hi`. */
  ghost predicate NoValueIn(s: String, lo: nat, hi: nat, attr: String) {
    forall q, f :: lo <= q < hi ==> !ValueIs(s, q, attr, f)
  }

  /** The value `LastValue` returns is the one whose attribute name starts last in `lo..hi`. */
  lemma {:induction false} LastValueMeans(s: String, lo: nat, hi: nat, attr: String, q: nat, f: nat)
    requires lo <= hi <= |s|
    ensures LastValue(s, lo, hi, attr) == Some((q + |attr| + 1, f)) <==>
            lo <= q < hi && ValueIs(s, q, attr, f) && NoValueIn(s, q + 1, hi, attr)
    decreases hi - lo
  {
    if hi > lo {
      if ValueAt(s, hi - 1, attr).Some? {
        LastAtTop(s, lo, hi, attr, q, f);
      } else {
        LastValueMeans(s, lo, hi - 1, attr, q, f);
        LastBelowTop(s, lo, hi, attr, q, f);
      }
    }
  }

  /** `LastValueMeans` when the last position of the range holds no value, from the same
      statement for the range without it. */
  lemma LastBelowTop(s: String, lo: nat, hi: nat, attr: String, q: nat, f: nat)
    requires lo < hi <= |s| && ValueAt(s, hi - 1, attr).None?
    requires LastValue(s, lo, hi - 1, attr) == Some((q + |attr| + 1, f)) <==>
             lo <= q < hi - 1 && ValueIs(s, q, attr, f) && NoValueIn(s, q + 1, hi - 1, attr)
    ensures LastValue(s, lo, hi, attr) == Some((q + |attr| + 1, f)) <==>
            lo <= q < hi && ValueIs(s, q, attr, f) && NoValueIn(s, q + 1, hi, attr)
  {
    ValueAtNone(s, hi - 1, attr);
    assert LastValue(s, lo, hi, attr) == LastValue(s, lo, hi - 1, attr);
    assert !ValueIs(s, hi - 1, attr, f);
    if q < hi {
      NoValueBelowTop(s, q + 1, hi, attr);
    }
  }

  /** A range whose last position holds no value holds the values of the range without it. */
  lemma NoValueBelowTop(s: String, lo: nat, hi: nat, attr: String)
    requires lo <= hi <= |s| && 0 < hi && ValueAt(s, hi - 1, attr).None?
    ensures NoValueIn(s, lo, hi, attr) <==> NoValueIn(s, lo, hi - 1, attr)
  {
    ValueAtNone(s, hi - 1, attr);
  }

  /** `LastValueMeans` when the last position of the range holds a value. */
  lemma LastAtTop(s: String, lo: nat, hi: nat, attr: String, q: nat, f: nat)
    requires lo < hi <= |s| && ValueAt(s, hi - 1, attr).Some?
    ensures LastValue(s, lo, hi, attr) == Some((q + |attr| + 1, f)) <==>
            lo <= q < hi && ValueIs(s, q, attr, f) && NoValueIn(s, q + 1, hi, attr)
  {
    var v := ValueAt(s, hi - 1, attr).value;
    ValueAtMeans(s, hi - 1, attr, v.1);
    ValueAtMeans(s, hi - 1, attr, f);
  }

  /** No value anywhere in `lo..hi`. */
  lemma {:induction false} LastValueNone(s: String, lo: nat, hi: nat, attr: String)
    requires lo <= hi <= |s|
    ensures LastValue(s, lo, hi, attr).None? <==> NoValueIn(s, lo, hi, attr)
    decreases hi - lo
  {
    if hi > lo {
      ValueAtNone(s, hi - 1, attr);
      LastValueNone(s, lo, hi - 1, attr);
    }
  }

  /** The run `[^>]+` after `open` at `p` can end at `q`: it is not empty and holds no `>`. */
  predicate InTag(s: String, p: nat, open: String, q: nat) {
    p + |open| < q <= |s| && forall m :: p + |open| <= m < q ==> s[m] != '>'
  }

  /** No value of `attr` starts inside the tag at `p` after `q`. */
  ghost predicate NoLaterInTag(s: String, p: nat, open: String, attr: String, q: nat) {
    forall q', f :: q < q' && InTag(s, p, open, q') ==> !ValueIs(s, q', attr, f)
  }

  /** A match of `<tag[^>]+attr["']([^"']+)["']` at `p` captures the value whose attribute
      name starts last inside the tag, before its first `>`. (An attribute name never starts
      with `>`.) */
  lemma MatchAtMeans(s: String, p: nat, open: String, attr: String, q: nat, f: nat)
    requires p <= |s| && open != [] && (attr == [] || attr[0] != '>')
    ensures MatchAt(s, p, open, attr) == Some((q + |attr| + 1, f)) <==>
            StartsWithCi(s[p..], open) && InTag(s, p, open, q) && ValueIs(s, q, attr, f) &&
            NoLaterInTag(s, p, open, attr, q)
  {
    MatchAtRange(s, p, open, attr);
    if StartsWithCi(s[p..], open) {
      var e := FirstOf(s, p + |open|, {'>'});
      var lo := p + |open| + 1;
      TagMeans(s, p, open, attr, q, f);
      if lo <= e {
        LastValueMeans(s, lo, e, attr, q, f);
      }
    }
  }

  /** A match at `p` is the last value in the range of the tag that starts there. */
  lemma MatchAtRange(s: String, p: nat, open: String, attr: String)
    requires p <= |s| && open != []
    ensures StartsWithCi(s[p..], open) ==>
            var e := FirstOf(s, p + |open|, {'>'});
            MatchAt(s, p, open, attr) == if p + |open| + 1 <= e then LastValue(s, p + |open| + 1, e, attr) else None
    ensures !StartsWithCi(s[p..], open) ==> MatchAt(s, p, open, attr).None?
  {
  }

  /** The value the pattern captures inside a tag is the last one in the range up to the
      tag's first `>`. */
  lemma TagMeans(s: String, p: nat, open: String, attr: String, q: nat, f: nat)
    requires p + |open| <= |s| && (attr == [] || attr[0] != '>')
    ensures var e := FirstOf(s, p + |open|, {'>'});
            (InTag(s, p, open, q) && ValueIs(s, q, attr, f) && NoLaterInTag(s, p, open, attr, q)) <==>
            (p + |open| + 1 <= q < e && ValueIs(s, q, attr, f) && NoValueIn(s, q + 1, e, attr))
  {
    TagRange(s, p, open, attr, q, f);
  }

  /** Inside a tag, the values are those of the range up to its first `>`. */
  lemma TagRange(s: String, p: nat, open: String, attr: String, q: nat, f: nat)
    requires p + |open| <= |s| && (attr == [] || attr[0] != '>')
    ensures var e := FirstOf(s, p + |open|, {'>'});
            InTag(s, p, open, q) && ValueIs(s, q, attr, f) <==> p + |open| < q < e && ValueIs(s, q, attr, f)
    ensures var e := FirstOf(s, p + |open|, {'>'}); p + |open| < q ==>
            (NoLaterInTag(s, p, open, attr, q) <==>
            NoValueIn(s, q + 1, e, attr))
  {
    var e := FirstOf(s, p + |open|, {'>'});
    NoValueAtClose(s, e, attr);
    InTagUpTo(s, p, open);
    if NoValueIn(s, q + 1, e, attr) {
      forall q', g | q < q' && InTag(s, p, open, q') ensures !ValueIs(s, q', attr, g) {
        if q' == e {
          assert !ValueIs(s, e, attr, g);
        }
      }
    }
    if p + |open| < q && NoLaterInTag(s, p, open, attr, q) {
      forall q', g | q < q' < e ensures !ValueIs(s, q', attr, g) {
        assert InTag(s, p, open, q');
      }
    }
  }

  /** No value starts at the `>` that closes a tag. */
  lemma NoValueAtClose(s: String, e: nat, attr: String)
    requires e <= |s| && (e < |s| ==> s[e] == '>') && (attr == [] || attr[0] != '>')
    ensures forall g :: !ValueIs(s, e, attr, g)
  {
    if e < |s| && attr != [] {
      assert forall g :: ValueIs(s, e, attr, g) ==> LowerAll(s[e..][..|attr|])[0] == attr[0];
    }
  }

  /** The run inside a tag can end anywhere up to the first `>`. */
  lemma InTagUpTo(s: String, p: nat, open: String)
    requires p + |open| <= |s|
    ensures forall q: nat :: InTag(s, p, open, q) <==> p + |open| < q <= FirstOf(s, p + |open|, {'>'})
  {
    FirstOfSkips(s, p + |open|, {'>'});
  }

  /** No match at `p`: the tag does not start there or holds no value. */
  lemma MatchAtNone(s: String, p: nat, open: String, attr: String)
    requires p <= |s| && open != [] && (attr == [] || attr[0] != '>')
    ensures MatchAt(s, p, open, attr).None? <==>
            !StartsWithCi(s[p..], open) || forall q, f :: InTag(s, p, open, q) ==> !ValueIs(s, q, attr, f)
  {
    var m := MatchAt(s, p, open, attr);
    if m.Some? {
      MatchAtMeans(s, p, open, attr, m.value.0 - |attr| - 1, m.value.1);
    } else if StartsWithCi(s[p..], open) {
      forall q, f | InTag(s, p, open, q) ensures !ValueIs(s, q, attr, f) {
        if ValueIs(s, q, attr, f) {
          LastStart(s, p, open, attr, q, f);
        }
      }
    }
  }

  /** A value inside the tag means that some value starts last inside it. */
  lemma LastStart(s: String, p: nat, open: String, attr: String, q: nat, f: nat)
    requires p <= |s| && open != [] && (attr == [] || attr[0] != '>')
    requires StartsWithCi(s[p..], open) && InTag(s, p, open, q) && ValueIs(s, q, attr, f)
    ensures MatchAt(s, p, open, attr).Some?
  {
    var e := FirstOf(s, p + |open|, {'>'});
    InTagUpTo(s, p, open);
    NoValueAtClose(s, e, attr);
    LastValueNone(s, p + |open| + 1, e, attr);
  }

  /** The scan skips the positions where nothing matches. */
  lemma {:induction false} CapturesSkip(s: String, open: String, attr: String, i: nat, p: nat)
    requires i <= p <= |s| && open != []
    requires forall j :: i <= j < p ==> MatchAt(s, j, open, attr).None?
    ensures Captures(s, open, attr, i) == Captures(s, open, attr, p)
    decreases p - i
  {
    if i < p {
      CapturesSkip(s, open, attr, i + 1, p);
    }
  }

  /** `matchAll` yields the leftmost match first, then resumes after its closing quote. */
  lemma CapturesLeftmost(s: String, open: String, attr: String, i: nat, p: nat)
    requires i <= p < |s| && open != [] && MatchAt(s, p, open, attr).Some?
    requires forall j :: i <= j < p ==> MatchAt(s, j, open, attr).None?
    ensures var m := MatchAt(s, p, open, attr).value;
            Captures(s, open, attr, i) == [s[m.0..m.1]] + Captures(s, open, attr, m.1 + 1)
  {
    CapturesSkip(s, open, attr, i, p);
  }

  /** No match from `i` on: nothing is captured. */
  lemma CapturesNone(s: String, open: String, attr: String, i: nat)
    requires i <= |s| && open != []
    requires forall j :: i <= j < |s| ==> MatchAt(s, j, open, attr).None?
    ensures Captures(s, open, attr, i) == []
  {
    CapturesSkip(s, open, attr, i, |s|);
  }

  // ---------------------------------------------------------------- scanning stylesheets

  /** `re.exec` of `/url\(([^)]+)\)/g` from `lastIndex` `i`: the first `url(` at or after
      `i` whose argument, up to the first `)`, is not empty and is closed. The result is the
      interval of the argument. */
  function CssMatch(s: String, i: nat): (r: Option<(nat, nat)>)
    requires i <= |s|
    ensures r.Some? ==> i + 4 <= r.value.0 < r.value.1 < |s|
    decreases |s| - i
  {
    if i + 4 > |s| then None
    else if s[i..i + 4] == "url(" && i + 4 < FirstOf(s, i + 4, {')'}) < |s| then
      Some((i + 4, FirstOf(s, i + 4, {')'})))
    else CssMatch(s, i + 1)
  }

  /** `.replace(/^['"]|['"]$/g, '')`: one leading and one trailing quote, of either kind,
      are removed; a lone quote is removed once. */
  function StripQuotes(t: String): (r: String)
    ensures |t| - 2 <= |r| <= |t|
  {
    var u := if t != [] && IsQuote(t[0]) then t[1..] else t;
    if u != [] && IsQuote(u[|u| - 1]) then u[..|u| - 1] else u
  }

  /** The URL a `url(...)` argument names: trimmed and unquoted, skipped when that leaves it
      empty or a `data:` URL, resolved against the stylesheet's own URL. */
  function RefOf(env: Env, raw: String, cssUrl: String): (r: Option<String>)
    ensures r.Some? ==> var t := StripQuotes(Strip(raw));
                        t != [] && !StartsWith(t, "data:") &&
                        env.resolve(t, cssUrl).Some? && r.value == env.resolve(t, cssUrl).value.href
  {
    var t := StripQuotes(Strip(raw));
    if t == [] || StartsWith(t, "data:") then None
    else
      var abs := env.resolve(t, cssUrl);
      if abs.Some? then Some(abs.value.href) else None
  }

  /** The reference of one `url(...)` argument as a list: empty when it is skipped. */
  function RefsOf(env: Env, raw: String, cssUrl: String): seq<String> {
    var r := RefOf(env, raw, cssUrl);
    if r.Some? then [r.value] else []
  }

  /** The arguments of the `url(...)` matches of `css` from index `i` on, in order. */
  function CssArgs(css: String, i: nat): (r: seq<String>)
    requires i <= |css|
    ensures forall k :: 0 <= k < |r| ==> r[k] != []
    decreases |css| - i
  {
    var m := CssMatch(css, i);
    if m.None? then [] else [css[m.value.0..m.value.1]] + CssArgs(css, m.value.1 + 1)
  }

  /** The references the arguments `args` name, in order, with repeats. */
  function Refs(env: Env, args: seq<String>, cssUrl: String): seq<String>
    decreases |args|
  {
    if args == [] then [] else RefsOf(env, args[0], cssUrl) + Refs(env, args[1..], cssUrl)
  }

  /** The references of the first argument come before those of the others. */
  lemma RefsCons(env: Env, arg: String, args: seq<String>, cssUrl: String)
    ensures Refs(env, [arg] + args, cssUrl) == RefsOf(env, arg, cssUrl) + Refs(env, args, cssUrl)
  {
    assert ([arg] + args)[1..] == args;
  }

  /** The references of `css` from index `i` on, in order, with repeats. */
  function RefsFrom(env: Env, css: String, cssUrl: String, i: nat): seq<String>
    requires i <= |css|
  {
    Refs(env, CssArgs(css, i), cssUrl)
  }

  /** One turn of the `re.exec` loop leaves the same set to be built: the match `m` found
      from `i` is added to `urls`, giving `urls'`, and the scan resumes at `j`. */
  lemma FindStep(env: Env, css: String, cssUrl: String, i: nat, m: (nat, nat), j: nat,
                 urls: seq<String>, urls': seq<String>)
    requires i <= |css| && CssMatch(css, i) == Some(m) && j == m.1 + 1
    requires urls' == Seqs.AddAll(urls, RefsOf(env, css[m.0..m.1], cssUrl))
    ensures Seqs.AddAll(urls', RefsFrom(env, css, cssUrl, j)) == Seqs.AddAll(urls, RefsFrom(env, css, cssUrl, i))
  {
    var arg, rest := css[m.0..m.1], CssArgs(css, j);
    assert CssArgs(css, i) == [arg] + rest;
    RefsCons(env, arg, rest, cssUrl);
    Seqs.AddAllConcat(urls, RefsOf(env, arg, cssUrl), Refs(env, rest, cssUrl));
  }

  /** What `findCssUrls(cssText, cssUrl)` returns: the distinct references, in the order of
      their first mention. */
  function CssUrls(env: Env, css: String, cssUrl: String): (r: seq<String>)
    ensures Seqs.Distinct(r) && forall x :: x in r <==> x in RefsFrom(env, css, cssUrl, 0)
  {
    Seqs.Dedup(RefsFrom(env, css, cssUrl, 0))
  }

  /** `findCssUrls(cssText, cssUrl)`: the `re.exec` loop, adding each reference to a set. */
  method FindCssUrls(env: Env, css: String, cssUrl: String) returns (urls: seq<String>)
    ensures urls == CssUrls(env, css, cssUrl)
  {
    urls := [];
    var i := 0;
    while true
      invariant i <= |css|
      invariant Seqs.AddAll(urls, RefsFrom(env, css, cssUrl, i)) == CssUrls(env, css, cssUrl)
      decreases |css| - i
    {
      var m := CssMatch(css, i);
      if m.None? {
        break;
      }
      ghost var i0, before := i, urls;
      urls := AddRef(env, css[m.value.0..m.value.1], cssUrl, urls);
      i := m.value.1 + 1;
      FindStep(env, css, cssUrl, i0, m.value, i, before, urls);
    }
  }

  /** The body of the `re.exec` loop for the argument `arg`: trimmed, unquoted, skipped when
      empty or a `data:` URL, otherwise resolved and added to the set when it parses. */
  method AddRef(env: Env, arg: String, cssUrl: String, urls: seq<String>) returns (urls': seq<String>)
    ensures urls' == Seqs.AddAll(urls, RefsOf(env, arg, cssUrl))
  {
    urls' := urls;
    var raw := StripQuotes(Strip(arg));
    if raw == [] || StartsWith(raw, "data:") {
      assert RefsOf(env, arg, cssUrl) == [];
      return;
    }
    var abs := env.resolve(raw, cssUrl);
    if abs.Some? {
      Seqs.AddAllOne(urls, abs.value.href);
      if abs.value.href !in urls {
        urls' := urls + [abs.value.href];
      }
    } else {
      assert RefsOf(env, arg, cssUrl) == [];
    }
  }

  /** A quoted argument loses its quotes, matched or not, and only one on each side. */
  lemma StripQuotesCases(x: String)
    requires x != [] && !IsQuote(x[0]) && !IsQuote(x[|x| - 1])
    ensures StripQuotes(x) == x
    ensures StripQuotes("'" + x + "'") == x && StripQuotes("\"" + x + "'") == x
    ensures StripQuotes("''" + x + "''") == "'" + x + "'"
    ensures StripQuotes("'" + x) == x && StripQuotes(x + "\"") == x
    ensures StripQuotes("'") == [] && StripQuotes("\"\"") == []
  {
    var q := "'" + x + "'";
    assert q[1..|q| - 1] == x;
    var d := "\"" + x + "'";
    assert d[1..|d| - 1] == x;
    var w := "''" + x + "''";
    assert w[1..|w| - 1] == "'" + x + "'";
    assert ("'" + x)[1..] == x;
    var e := x + "\"";
    assert e[..|e| - 1] == x;
  }

  /** `url(` written at `p` with a non-empty argument closed by the first `)`, at `f`. */
  predicate UrlAt(s: String, p: nat, f: nat) {
    p + 4 < f < |s| && s[p..p + 4] == "url(" && s[f] == ')' &&
    forall m :: p + 4 <= m < f ==> s[m] != ')'
  }

  /** `UrlAt` in terms of the first `)` after the parenthesis. */
  lemma UrlAtFirst(s: String, p: nat, f: nat)
    requires p + 4 <= |s|
    ensures UrlAt(s, p, f) <==>
            s[p..p + 4] == "url(" && f == FirstOf(s, p + 4, {')'}) && p + 4 < f < |s|
  {
    FirstOfSkips(s, p + 4, {')'});
    if UrlAt(s, p, f) {
      FirstOfAt(s, p + 4, f, {')'});
    }
  }

  /** The match `re.exec` finds from `i` is the first `url(` at or after `i` whose argument
      is not empty and is closed. */
  lemma {:induction false} CssMatchMeans(s: String, i: nat, p: nat, f: nat)
    requires i <= |s|
    ensures CssMatch(s, i) == Some((p + 4, f)) <==>
            i <= p && UrlAt(s, p, f) && forall p', g :: i <= p' < p ==> !UrlAt(s, p', g)
    decreases |s| - i
  {
    if i + 4 <= |s| {
      var e := FirstOf(s, i + 4, {')'});
      UrlAtFirstAll(s, i);
      if s[i..i + 4] == "url(" && i + 4 < e < |s| {
        assert UrlAt(s, i, e);
      } else {
        CssMatchMeans(s, i + 1, p, f);
      }
    }
  }

  /** `UrlAtFirst` for every end. */
  lemma UrlAtFirstAll(s: String, p: nat)
    requires p + 4 <= |s|
    ensures forall f: nat :: UrlAt(s, p, f) <==>
              s[p..p + 4] == "url(" && f == FirstOf(s, p + 4, {')'}) && p + 4 < f < |s|
  {
    forall f: nat ensures UrlAt(s, p, f) <==>
              s[p..p + 4] == "url(" && f == FirstOf(s, p + 4, {')'}) && p + 4 < f < |s| {
      UrlAtFirst(s, p, f);
    }
  }

  /** `re.exec` finds nothing from `i` exactly when no `url(...)` with an argument follows. */
  lemma {:induction false} CssMatchNone(s: String, i: nat)
    requires i <= |s|
    ensures CssMatch(s, i).None? <==> forall p, g :: i <= p ==> !UrlAt(s, p, g)
    decreases |s| - i
  {
    if i + 4 <= |s| {
      var e := FirstOf(s, i + 4, {')'});
      UrlAtFirstAll(s, i);
      if s[i..i + 4] == "url(" && i + 4 < e < |s| {
        assert UrlAt(s, i, e);
      } else {
        CssMatchNone(s, i + 1);
        assert forall p: nat, g: nat :: i <= p ==> (UrlAt(s, p, g) <==> i + 1 <= p && UrlAt(s, p, g));
      }
    }
  }

  /** The arguments from `i` on: that of the first `url(...)` at or after `i`, then those
      after its `)`. */
  lemma CssArgsFirst(css: String, i: nat, p: nat, f: nat)
    requires i <= p && UrlAt(css, p, f) && forall p', g :: i <= p' < p ==> !UrlAt(css, p', g)
    ensures CssArgs(css, i) == [css[p + 4..f]] + CssArgs(css, f + 1)
  {
    CssMatchMeans(css, i, p, f);
  }

  /** No `url(...)` with an argument from `i` on: no arguments. */
  lemma CssArgsNone(css: String, i: nat)
    requires i <= |css| && forall p, g :: i <= p ==> !UrlAt(css, p, g)
    ensures CssArgs(css, i) == []
  {
    CssMatchNone(css, i);
  }

  /** What the replacement removes: the first character when it is a quote, then the last
      character of what is left when that is a quote. */
  lemma StripQuotesMeans(t: String)
    ensures |t| >= 2 && IsQuote(t[0]) && IsQuote(t[|t| - 1]) ==> StripQuotes(t) == t[1..|t| - 1]
    ensures t != [] && IsQuote(t[0]) && !IsQuote(t[|t| - 1]) ==> StripQuotes(t) == t[1..]
    ensures t != [] && !IsQuote(t[0]) && IsQuote(t[|t| - 1]) ==> StripQuotes(t) == t[..|t| - 1]
    ensures t == [] || (!IsQuote(t[0]) && !IsQuote(t[|t| - 1])) ==> StripQuotes(t) == t
    ensures |t| == 1 && IsQuote(t[0]) ==> StripQuotes(t) == []
  {
    if |t| >= 2 && IsQuote(t[0]) {
      assert t[1..][..|t[1..]| - 1] == t[1..|t| - 1];
    }
  }

  /** Empty and `data:` references are never followed. */
  lemma SkippedRefs(env: Env, raw: String, cssUrl: String)
    requires var t := StripQuotes(Strip(raw)); t == [] || StartsWith(t, "data:")
    ensures RefOf(env, raw, cssUrl).None?
  {
  }

  // ---------------------------------------------------------------- collecting the assets

  /** The URLs of `us` that are from `origin`, in order. */
  function SameOrigin(env: Env, us: seq<String>, origin: String): (r: seq<String>)
    ensures forall x :: x in r <==> x in us && IsFromOrigin(env, x, origin)
    decreases |us|
  {
    if us == [] then []
    else
      var u := us[|us| - 1];
      SameOrigin(env, us[..|us| - 1], origin) + (if IsFromOrigin(env, u, origin) then [u] else [])
  }

  /** `for (const u of us) if (isFromOrigin(u, origin)) set.add(u)`. */
  method AddSameOrigin(env: Env, us: seq<String>, origin: String, acc: seq<String>) returns (r: seq<String>)
    ensures r == Seqs.AddAll(acc, SameOrigin(env, us, origin))
  {
    r := acc;
    for k := 0 to |us|
      invariant r == Seqs.AddAll(acc, SameOrigin(env, us[..k], origin))
    {
      var u := us[k];
      assert us[..k + 1][..k] == us[..k];
      Seqs.AddAllConcat(acc, SameOrigin(env, us[..k], origin), if IsFromOrigin(env, u, origin) then [u] else []);
      if IsFromOrigin(env, u, origin) {
        Seqs.AddAllOne(r, u);
        if u !in r {
          r := r + [u];
        }
      }
    }
    assert us[..|us|] == us;
  }

  /** The same-origin asset URLs a page names, in order. */
  function PageAssets(env: Env, base: String, origin: String): Path -> seq<String> {
    f => SameOrigin(env, ExtractAssetUrls(env, env.read(f), base), origin)
  }

  /** The same-origin asset URLs of the pages `files`, page by page, with repeats. */
  function PageUrls(env: Env, files: seq<Path>, base: String, origin: String): seq<String> {
    Seqs.ConcatMap(PageAssets(env, base, origin), files)
  }

  /** The set `toDownload`: the same-origin asset URLs of the pages, each once, in the order
      of their first mention. */
  function Collected(env: Env, files: seq<Path>, base: String, origin: String): (r: seq<String>)
    ensures Seqs.Distinct(r)
  {
    Seqs.Dedup(PageUrls(env, files, base, origin))
  }

  /** A URL is collected exactly when it is from the origin and one of the pages names it. */
  lemma CollectedMeans(env: Env, files: seq<Path>, base: String, origin: String, x: String)
    ensures x in Collected(env, files, base, origin) <==>
            IsFromOrigin(env, x, origin) &&
            exists k :: 0 <= k < |files| && x in ExtractAssetUrls(env, env.read(files[k]), base)
  {
    var g := PageAssets(env, base, origin);
    Seqs.ConcatMapMeans(g, files, x);
    forall k | 0 <= k < |files|
      ensures x in g(files[k]) <==> IsFromOrigin(env, x, origin) && x in ExtractAssetUrls(env, env.read(files[k]), base)
    {
    }
  }

  /** The first loop of `main()`: each page is read and its same-origin asset URLs are added
      to `toDownload`. */
  method CollectAssets(env: Env, files: seq<Path>, base: String, origin: String) returns (toDownload: seq<String>)
    ensures toDownload == Collected(env, files, base, origin)
  {
    toDownload := [];
    for i := 0 to |files|
      invariant toDownload == Seqs.AddAll([], PageUrls(env, files[..i], base, origin))
    {
      var found := ExtractAssetUrls(env, env.read(files[i]), base);
      ghost var before := toDownload;
      toDownload := AddSameOrigin(env, found, origin, toDownload);
      Seqs.AddConcatMapStep(PageAssets(env, base, origin), files, i, before, toDownload);
    }
    assert files[..|files|] == files;
  }

  // ---------------------------------------------------------------- one asset

  /** `/\.css(\?|$)/i` matching at `k`: `.css` in any case, then `?` or the end. */
  predicate CssAt(u: String, k: nat) {
    k + 4 <= |u| && LowerAll(u[k..k + 4]) == ".css" && (k + 4 == |u| || u[k + 4] == '?')
  }

  /** `/\.css(\?|$)/i.test(url)`: the URL is fetched as a stylesheet. */
  predicate IsCssUrl(u: String) {
    exists k: nat :: k + 4 <= |u| && CssAt(u, k)
  }

  /** A URL ending in `.css`, or with `.css` in any case right before its query, is a
      stylesheet. */
  lemma CssSuffixes(u: String, q: String)
    ensures IsCssUrl(u + ".css") && IsCssUrl(u + ".CSS?" + q)
  {
    var a := u + ".css";
    assert a[|u|..|u| + 4] == ".css";
    assert CssAt(a, |u|);
    var b := u + ".CSS?" + q;
    assert b[|u|..|u| + 4] == ".CSS" && b[|u| + 4] == '?';
    assert CssAt(b, |u|);
  }

  /** A URL with no `.` is never a stylesheet. */
  lemma NoDotNotCss(u: String)
    requires '.' !in u
    ensures !IsCssUrl(u)
  {
    forall k: nat | k + 4 <= |u| ensures !CssAt(u, k) {
      assert LowerAll(u[k..k + 4])[0] == Lower(u[k]);
    }
  }

  /** What the `try` block leaves behind: the file it wrote and the references it queued. */
  datatype Fetched = Fetched(body: Body, refs: seq<String>)

  /** The `try` block for `url` and its file `dest`; `None` when the fetch or the write
      throws and the `catch` skips the URL. A stylesheet is fetched as text, written, and
      its same-origin references are queued; any other asset is fetched as bytes. */
  function Download(env: Env, origin: String, url: String, dest: Path): Option<Fetched> {
    if IsCssUrl(url) then
      var css := env.fetchText(url);
      if css.None? || !env.writes(dest) then None
      else Some(Fetched(TextBody(css.value), SameOrigin(env, CssUrls(env, css.value, url), origin)))
    else
      var buf := env.fetchBinary(url);
      if buf.None? || !env.writes(dest) then None
      else Some(Fetched(BinaryBody(buf.value), []))
  }

  /** A stylesheet's same-origin references, pushed onto the queue in order. */
  method PushSameOrigin(env: Env, refs: seq<String>, origin: String, queue: seq<String>)
    returns (queue': seq<String>)
    ensures queue' == queue + SameOrigin(env, refs, origin)
  {
    queue' := queue;
    for k := 0 to |refs|
      invariant queue' == queue + SameOrigin(env, refs[..k], origin)
    {
      assert refs[..k + 1][..k] == refs[..k];
      if IsFromOrigin(env, refs[k], origin) {
        queue' := queue' + [refs[k]];
      }
    }
    assert refs[..|refs|] == refs;
  }

  /** The `try` block, run on the queue and the files. */
  method TryDownload(env: Env, origin: String, url: String, dest: Path, queue: seq<String>,
                     files: map<Path, Body>) returns (queue': seq<String>, files': map<Path, Body>)
    ensures var f := Download(env, origin, url, dest);
            (f.None? ==> queue' == queue && files' == files) &&
            (f.Some? ==> queue' == queue + f.value.refs && files' == files[dest := f.value.body])
  {
    queue', files' := queue, files;
    if IsCssUrl(url) {
      var css := env.fetchText(url);
      if css.None? || !env.writes(dest) {
        return;
      }
      files' := files[dest := TextBody(css.value)];
      var refs := FindCssUrls(env, css.value, url);
      queue' := PushSameOrigin(env, refs, origin, queue);
    } else {
      var buf := env.fetchBinary(url);
      if buf.None? || !env.writes(dest) {
        return;
      }
      files' := files[dest := BinaryBody(buf.value)];
    }
  }

  // ---------------------------------------------------------------- the download queue

  /** The state of the second loop of `main()`: the queue, the visited URLs in the order
      they were taken (the insertion order of the `Set`), and the files. */
  datatype Mirror = Mirror(queue: seq<String>, visited: seq<String>, files: map<Path, Body>)

  /** The file an URL that parses is mirrored to. */
  function Dest(env: Env, outAbs: Path, url: String): (p: Path)
    requires env.parse(url).Some?
    ensures ToLocalPath(env, outAbs, url) == Some(p)
  {
    LocalPath(outAbs, env.parse(url).value.pathname)
  }

  /** The references queued when `url` is visited. */
  function Queued(env: Env, outAbs: Path, origin: String, url: String): seq<String>
    requires env.parse(url).Some?
  {
    var f := Download(env, origin, url, Dest(env, outAbs, url));
    if f.Some? then f.value.refs else []
  }

  /** The visit of the head of the queue, a URL not yet visited: it joins the visited URLs
      and, unless the `try` block throws, its file is written and its references are queued
      behind the rest. */
  function Visit(env: Env, outAbs: Path, origin: String, s: Mirror): (r: Mirror)
    requires s.queue != [] && env.parse(s.queue[0]).Some?
    ensures r.visited == s.visited + [s.queue[0]]
    ensures r.queue == s.queue[1..] + Queued(env, outAbs, origin, s.queue[0])
  {
    var url := s.queue[0];
    var dest := Dest(env, outAbs, url);
    var f := Download(env, origin, url, dest);
    if f.None? then Mirror(s.queue[1..], s.visited + [url], s.files)
    else Mirror(s.queue[1..] + f.value.refs, s.visited + [url], s.files[dest := f.value.body])
  }

  /** One turn of the `while` loop: the head of the queue is taken; a visited URL is
      dropped, any other is visited. `toLocalPath` throws, ending the script, on an URL
      that does not parse; no such URL is ever queued. */
  function Step(env: Env, outAbs: Path, origin: String, s: Mirror): Mirror
    requires s.queue != [] && env.parse(s.queue[0]).Some?
  {
    if s.queue[0] in s.visited then s.(queue := s.queue[1..]) else Visit(env, outAbs, origin, s)
  }

  /** Every URL of `q` is from the origin and in `U`. */
  ghost predicate Within(env: Env, origin: String, U: set<String>, q: seq<String>) {
    forall i :: 0 <= i < |q| ==> q[i] in U && IsFromOrigin(env, q[i], origin)
  }

  /** `U` holds every reference a visit of one of its same-origin URLs queues. */
  ghost predicate Closed(env: Env, outAbs: Path, origin: String, U: set<String>) {
    forall u, r :: u in U && IsFromOrigin(env, u, origin) && r in Queued(env, outAbs, origin, u) ==> r in U
  }

  ghost function Unvisited(U: set<String>, visited: seq<String>): set<String> {
    set u | u in U && u !in visited
  }

  lemma WithinAppend(env: Env, origin: String, U: set<String>, a: seq<String>, b: seq<String>)
    requires Within(env, origin, U, a) && Within(env, origin, U, b)
    ensures Within(env, origin, U, a + b)
  {
    forall i | 0 <= i < |a + b| ensures (a + b)[i] == if i < |a| then a[i] else b[i - |a|] { }
  }

  /** A turn keeps the queue within `U` and brings the loop closer to its end: it visits a
      URL of `U` for the first time, or it shortens the queue. */
  lemma StepWithin(env: Env, outAbs: Path, origin: String, U: set<String>, s: Mirror)
    requires Closed(env, outAbs, origin, U) && Within(env, origin, U, s.queue) && s.queue != []
    ensures env.parse(s.queue[0]).Some?
    ensures var t := Step(env, outAbs, origin, s);
            && Within(env, origin, U, t.queue)
            && (|Unvisited(U, t.visited)| < |Unvisited(U, s.visited)| ||
                (Unvisited(U, t.visited) == Unvisited(U, s.visited) && |t.queue| < |s.queue|))
  {
    var url := s.queue[0];
    assert url in U && IsFromOrigin(env, url, origin);
    var rest := s.queue[1..];
    assert Within(env, origin, U, rest) by {
      forall i | 0 <= i < |rest| ensures rest[i] == s.queue[i + 1] { }
    }
    if url !in s.visited {
      var refs := Queued(env, outAbs, origin, url);
      var f := Download(env, origin, url, Dest(env, outAbs, url));
      assert Within(env, origin, U, refs) by {
        forall i | 0 <= i < |refs| ensures refs[i] in U && IsFromOrigin(env, refs[i], origin) {
          assert refs[i] in refs;
          if f.Some? && IsCssUrl(url) {
            var css := env.fetchText(url).value;
            assert refs == SameOrigin(env, CssUrls(env, css, url), origin);
          }
        }
      }
      WithinAppend(env, origin, U, rest, refs);
      assert Unvisited(U, s.visited + [url]) == Unvisited(U, s.visited) - {url};
    }
  }

  /** The state once the queue is empty. `U` is a finite set of URLs, closed under the
      references of its stylesheets, that holds the queue: the site's same-origin URLs. */
  ghost function Run(env: Env, outAbs: Path, origin: String, U: set<String>, s: Mirror): (r: Mirror)
    requires Closed(env, outAbs, origin, U) && Within(env, origin, U, s.queue)
    ensures r.queue == []
    decreases |Unvisited(U, s.visited)|, |s.queue|
  {
    if s.queue == [] then s
    else
      StepWithin(env, outAbs, origin, U, s);
      Run(env, outAbs, origin, U, Step(env, outAbs, origin, s))
  }

  /** The second loop of `main()`: the queue starts as `toDownload` and the loop runs until
      it is empty. */
  method DownloadAll(env: Env, outAbs: Path, origin: String, toDownload: seq<String>,
                     files0: map<Path, Body>, ghost U: set<String>) returns (m: Mirror)
    requires Closed(env, outAbs, origin, U) && Within(env, origin, U, toDownload)
    ensures m == Run(env, outAbs, origin, U, Mirror(toDownload, [], files0))
  {
    var queue, visited, files := toDownload, [], files0;
    while queue != []
      invariant Within(env, origin, U, queue)
      invariant Run(env, outAbs, origin, U, Mirror(queue, visited, files)) ==
                Run(env, outAbs, origin, U, Mirror(toDownload, [], files0))
      decreases |Unvisited(U, visited)|, |queue|
    {
      ghost var s := Mirror(queue, visited, files);
      StepWithin(env, outAbs, origin, U, s);
      var url := queue[0];
      queue := queue[1..];
      if url !in visited {
        visited := visited + [url];
        var dest := ToLocalPath(env, outAbs, url).value;
        queue, files := TryDownload(env, origin, url, dest, queue, files);
      }
      assert Mirror(queue, visited, files) == Step(env, outAbs, origin, s);
    }
    m := Mirror(queue, visited, files);
  }

  // ---------------------------------------------------------------- what the mirror keeps

  /** `x` was queued by the visit of one of `visited`. */
  ghost predicate Referenced(env: Env, outAbs: Path, origin: String, visited: seq<String>, x: String) {
    exists j :: 0 <= j < |visited| && env.parse(visited[j]).Some? &&
                x in Queued(env, outAbs, origin, visited[j])
  }

  /** The visit of one of `visited` wrote `b` to the file `p`. */
  ghost predicate WrittenBy(env: Env, outAbs: Path, origin: String, visited: seq<String>, p: Path, b: Body) {
    exists j :: 0 <= j < |visited| && env.parse(visited[j]).Some? && Dest(env, outAbs, visited[j]) == p &&
                Download(env, origin, visited[j], p) == Some(Fetched(b, Queued(env, outAbs, origin, visited[j])))
  }

  /** The visit of `u` wrote its file. */
  ghost predicate Saved(env: Env, outAbs: Path, origin: String, u: String) {
    env.parse(u).Some? && Download(env, origin, u, Dest(env, outAbs, u)).Some?
  }

  lemma ReferencedSnoc(env: Env, outAbs: Path, origin: String, visited: seq<String>, u: String, x: String)
    ensures Referenced(env, outAbs, origin, visited + [u], x) <==>
            Referenced(env, outAbs, origin, visited, x) ||
            (env.parse(u).Some? && x in Queued(env, outAbs, origin, u))
  {
    var v := visited + [u];
    if Referenced(env, outAbs, origin, visited, x) {
      var j :| 0 <= j < |visited| && env.parse(visited[j]).Some? && x in Queued(env, outAbs, origin, visited[j]);
      assert v[j] == visited[j];
    }
    if env.parse(u).Some? && x in Queued(env, outAbs, origin, u) {
      assert v[|visited|] == u;
    }
    if Referenced(env, outAbs, origin, v, x) {
      var j :| 0 <= j < |v| && env.parse(v[j]).Some? && x in Queued(env, outAbs, origin, v[j]);
      if j < |visited| { assert visited[j] == v[j]; }
    }
  }

  lemma WrittenBySnoc(env: Env, outAbs: Path, origin: String, visited: seq<String>, u: String, p: Path, b: Body)
    requires WrittenBy(env, outAbs, origin, visited, p, b) ||
             (env.parse(u).Some? && Dest(env, outAbs, u) == p &&
              Download(env, origin, u, p) == Some(Fetched(b, Queued(env, outAbs, origin, u))))
    ensures WrittenBy(env, outAbs, origin, visited + [u], p, b)
  {
    var v := visited + [u];
    if WrittenBy(env, outAbs, origin, visited, p, b) {
      var j :| 0 <= j < |visited| && env.parse(visited[j]).Some? && Dest(env, outAbs, visited[j]) == p &&
               Download(env, origin, visited[j], p) == Some(Fetched(b, Queued(env, outAbs, origin, visited[j])));
      assert v[j] == visited[j];
    } else {
      assert v[|visited|] == u;
    }
  }

  /** Every URL visited or queued is one of the collected URLs or a reference of a visited
      stylesheet, and each of those is visited or still queued. */
  ghost predicate Accounted(env: Env, outAbs: Path, origin: String, start: seq<String>, s: Mirror) {
    && (forall x :: x in start || Referenced(env, outAbs, origin, s.visited, x) ==> x in s.visited || x in s.queue)
    && (forall x :: x in s.visited || x in s.queue ==> x in start || Referenced(env, outAbs, origin, s.visited, x))
  }

  /** Every file is one the site already had or holds what a visit wrote there, and every
      visit that wrote its file left a file there. */
  ghost predicate FilesFrom(env: Env, outAbs: Path, origin: String, files0: map<Path, Body>, s: Mirror) {
    && (forall p :: p in s.files ==> p in files0 || WrittenBy(env, outAbs, origin, s.visited, p, s.files[p]))
    && (forall j :: 0 <= j < |s.visited| && Saved(env, outAbs, origin, s.visited[j]) ==>
                    Dest(env, outAbs, s.visited[j]) in s.files)
  }

  /** What holds throughout the loop: no URL is visited twice, only same-origin URLs are
      visited, the visited and queued URLs are accounted for, and the files come from the
      visits. */
  ghost predicate Inv(env: Env, outAbs: Path, origin: String, start: seq<String>, files0: map<Path, Body>, s: Mirror) {
    && Seqs.Distinct(s.visited)
    && (forall i :: 0 <= i < |s.visited| ==> IsFromOrigin(env, s.visited[i], origin))
    && Accounted(env, outAbs, origin, start, s)
    && FilesFrom(env, outAbs, origin, files0, s)
  }

  /** Dropping a visited URL keeps the invariant. */
  lemma DropInv(env: Env, outAbs: Path, origin: String, start: seq<String>, files0: map<Path, Body>, s: Mirror)
    requires s.queue != [] && s.queue[0] in s.visited && Inv(env, outAbs, origin, start, files0, s)
    ensures Inv(env, outAbs, origin, start, files0, s.(queue := s.queue[1..]))
  {
    var t := s.(queue := s.queue[1..]);
    forall x | x in s.queue && x !in s.visited ensures x in t.queue {
      var i :| 0 <= i < |s.queue| && s.queue[i] == x;
      assert t.queue[i - 1] == x;
    }
    forall x | x in t.queue ensures x in s.queue {
      var i :| 0 <= i < |t.queue| && t.queue[i] == x;
      assert s.queue[i + 1] == x;
    }
  }

  /** A visit keeps the visited URLs distinct and from the origin. */
  lemma VisitKeepsVisited(env: Env, origin: String, visited: seq<String>, u: String)
    requires Seqs.Distinct(visited) && u !in visited && IsFromOrigin(env, u, origin)
    requires forall i :: 0 <= i < |visited| ==> IsFromOrigin(env, visited[i], origin)
    ensures Seqs.Distinct(visited + [u])
    ensures forall i :: 0 <= i < |visited + [u]| ==> IsFromOrigin(env, (visited + [u])[i], origin)
  {
    forall i | 0 <= i < |visited| ensures (visited + [u])[i] == visited[i] { }
  }

  /** A visit keeps the URLs accounted for. */
  lemma VisitKeepsAccounted(env: Env, outAbs: Path, origin: String, start: seq<String>, s: Mirror)
    requires s.queue != [] && env.parse(s.queue[0]).Some? && Accounted(env, outAbs, origin, start, s)
    ensures Accounted(env, outAbs, origin, start, Visit(env, outAbs, origin, s))
  {
    var u, rest := s.queue[0], s.queue[1..];
    var refs := Queued(env, outAbs, origin, u);
    var t := Visit(env, outAbs, origin, s);
    forall x ensures x in s.queue <==> x == u || x in rest {
      if x in s.queue && x != u {
        var i :| 0 <= i < |s.queue| && s.queue[i] == x;
        assert rest[i - 1] == x;
      }
    }
    forall x ensures Referenced(env, outAbs, origin, t.visited, x) <==>
                     Referenced(env, outAbs, origin, s.visited, x) || x in refs {
      ReferencedSnoc(env, outAbs, origin, s.visited, u, x);
    }
  }

  /** A visit keeps the files accounted for. */
  lemma VisitKeepsFiles(env: Env, outAbs: Path, origin: String, files0: map<Path, Body>, s: Mirror)
    requires s.queue != [] && env.parse(s.queue[0]).Some? && FilesFrom(env, outAbs, origin, files0, s)
    ensures FilesFrom(env, outAbs, origin, files0, Visit(env, outAbs, origin, s))
  {
    var u := s.queue[0];
    var dest := Dest(env, outAbs, u);
    var t := Visit(env, outAbs, origin, s);
    forall p | p in t.files ensures p in files0 || WrittenBy(env, outAbs, origin, t.visited, p, t.files[p]) {
      if p == dest && Saved(env, outAbs, origin, u) {
        WrittenBySnoc(env, outAbs, origin, s.visited, u, p, t.files[p]);
      } else if p !in files0 {
        WrittenBySnoc(env, outAbs, origin, s.visited, u, p, t.files[p]);
      }
    }
    forall j | 0 <= j < |t.visited| && Saved(env, outAbs, origin, t.visited[j])
      ensures Dest(env, outAbs, t.visited[j]) in t.files
    {
      if j < |s.visited| { assert t.visited[j] == s.visited[j]; }
    }
  }

  /** Each turn of the loop keeps the invariant. */
  lemma StepInv(env: Env, outAbs: Path, origin: String, start: seq<String>, files0: map<Path, Body>, s: Mirror)
    requires s.queue != [] && IsFromOrigin(env, s.queue[0], origin) && Inv(env, outAbs, origin, start, files0, s)
    ensures Inv(env, outAbs, origin, start, files0, Step(env, outAbs, origin, s))
  {
    if s.queue[0] in s.visited {
      DropInv(env, outAbs, origin, start, files0, s);
    } else {
      VisitKeepsVisited(env, origin, s.visited, s.queue[0]);
      VisitKeepsAccounted(env, outAbs, origin, start, s);
      VisitKeepsFiles(env, outAbs, origin, files0, s);
    }
  }

  /** The invariant holds when the queue is empty. */
  lemma {:induction false} RunInv(env: Env, outAbs: Path, origin: String, U: set<String>, start: seq<String>,
                                  files0: map<Path, Body>, s: Mirror)
    requires Closed(env, outAbs, origin, U) && Within(env, origin, U, s.queue)
    requires Inv(env, outAbs, origin, start, files0, s)
    ensures Inv(env, outAbs, origin, start, files0, Run(env, outAbs, origin, U, s))
    decreases |Unvisited(U, s.visited)|, |s.queue|
  {
    if s.queue != [] {
      StepWithin(env, outAbs, origin, U, s);
      StepInv(env, outAbs, origin, start, files0, s);
      RunInv(env, outAbs, origin, U, start, files0, Step(env, outAbs, origin, s));
    }
  }

  /** What the download loop ends with, from the collected URLs `start`: no URL was fetched
      twice and only same-origin URLs were fetched; the visited URLs are exactly the
      collected ones and the references of the visited stylesheets; every file is one the
      site had or holds what a visit wrote there; and every visit that did not throw left
      its file. */
  lemma MirrorResult(env: Env, outAbs: Path, origin: String, U: set<String>, start: seq<String>, files0: map<Path, Body>)
    requires Closed(env, outAbs, origin, U) && Within(env, origin, U, start)
    ensures var r := Run(env, outAbs, origin, U, Mirror(start, [], files0));
            && Seqs.Distinct(r.visited)
            && (forall i :: 0 <= i < |r.visited| ==> IsFromOrigin(env, r.visited[i], origin))
            && (forall x :: x in r.visited <==> x in start || Referenced(env, outAbs, origin, r.visited, x))
            && (forall p :: p in r.files ==> p in files0 || WrittenBy(env, outAbs, origin, r.visited, p, r.files[p]))
            && (forall i :: 0 <= i < |r.visited| && Saved(env, outAbs, origin, r.visited[i]) ==>
                            Dest(env, outAbs, r.visited[i]) in r.files)
  {
    var s := Mirror(start, [], files0);
    assert Inv(env, outAbs, origin, start, files0, s);
    RunInv(env, outAbs, origin, U, start, files0, s);
  }

  /** A URL already visited is dropped without a fetch. */
  lemma VisitedSkipped(env: Env, outAbs: Path, origin: String, s: Mirror)
    requires s.queue != [] && env.parse(s.queue[0]).Some? && s.queue[0] in s.visited
    ensures Step(env, outAbs, origin, s) == s.(queue := s.queue[1..])
  {
  }

  /** A URL whose fetch or write throws still counts as visited, but writes no file and
      queues nothing. */
  lemma FailedStillCounted(env: Env, outAbs: Path, origin: String, s: Mirror)
    requires s.queue != [] && env.parse(s.queue[0]).Some? && s.queue[0] !in s.visited
    requires !Saved(env, outAbs, origin, s.queue[0])
    ensures Step(env, outAbs, origin, s) == Mirror(s.queue[1..], s.visited + [s.queue[0]], s.files)
  {
  }

  /** An asset that is not a stylesheet is never scanned: its visit queues nothing. */
  lemma NonCssNotScanned(env: Env, outAbs: Path, origin: String, u: String)
    requires env.parse(u).Some? && !IsCssUrl(u)
    ensures Queued(env, outAbs, origin, u) == []
    ensures Saved(env, outAbs, origin, u) ==>
              env.fetchBinary(u).Some? &&
              Download(env, origin, u, Dest(env, outAbs, u)).value.body == BinaryBody(env.fetchBinary(u).value)
  {
  }

  // ---------------------------------------------------------------- the script

  /** The pages the options name, read through `walkHtmlFiles` below the absolute input
      directory. */
  function Pages(env: Env, cwd: Path, a: Args): seq<Path> {
    env.walk(Paths.Absolute(cwd, a.from))
  }

  /** The collected URLs are from the origin. */
  lemma CollectedFromOrigin(env: Env, files: seq<Path>, base: String, origin: String)
    ensures forall x :: x in Collected(env, files, base, origin) ==> IsFromOrigin(env, x, origin)
  {
    forall x | x in Collected(env, files, base, origin) ensures IsFromOrigin(env, x, origin) {
      CollectedMeans(env, files, base, origin, x);
    }
  }

  /** The URLs the run can reach are finite: `U` holds the collected URLs and is closed
      under the references of its stylesheets. */
  ghost predicate Bounded(env: Env, argv: seq<String>, cwd: Path, U: set<String>) {
    var a := Parsed(argv);
    a.Some? && env.parse(a.value.base).Some? ==>
      var origin := env.parse(a.value.base).value.origin;
      && Closed(env, Paths.Absolute(cwd, a.value.out), origin, U)
      && forall x :: x in Collected(env, Pages(env, cwd, a.value), a.value.base, origin) ==> x in U
  }

  /** `main()` on the files `files0`: the options, the base's origin, the collected asset
      URLs and the download loop; `None` when the script exits early, on a usage error or
      a base that `new URL` rejects. */
  method MirrorSite(env: Env, argv: seq<String>, cwd: Path, files0: map<Path, Body>, ghost U: set<String>)
    returns (r: Option<Mirror>)
    requires Bounded(env, argv, cwd, U)
    ensures Parsed(argv).None? ==> r.None?
    ensures Parsed(argv).Some? && env.parse(Parsed(argv).value.base).None? ==> r.None?
    ensures Parsed(argv).Some? && env.parse(Parsed(argv).value.base).Some? ==>
              var a := Parsed(argv).value;
              var origin := env.parse(a.base).value.origin;
              var start := Collected(env, Pages(env, cwd, a), a.base, origin);
              (CollectedFromOrigin(env, Pages(env, cwd, a), a.base, origin);
               r == Some(Run(env, Paths.Absolute(cwd, a.out), origin, U, Mirror(start, [], files0))))
  {
    var args := ParseArgs(argv);
    if args.None? {
      return None;
    }
    var a := args.value;
    var b := env.parse(a.base);
    if b.None? {
      return None;
    }
    var origin := b.value.origin;
    var outAbs := Paths.Absolute(cwd, a.out);
    var toDownload := CollectAssets(env, Pages(env, cwd, a), a.base, origin);
    CollectedFromOrigin(env, Pages(env, cwd, a), a.base, origin);
    var m := DownloadAll(env, outAbs, origin, toDownload, files0, U);
    r := Some(m);
  }
}
