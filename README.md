# WordPress to Astro migration scripts, modelled in Dafny

The repository moves a WordPress site to an Astro site with a set of batch scripts:

- converters that read the WordPress REST API (`wordpress-converter.py`) or scrape the live site
  (`scrape-converter.py`, `src/scripts/wp-scraper.js`);
- generators that turn scraped HTML into Astro pages (`src/scripts/generate-astro-from-scrape.js`,
  `rebuild-pages.py`);
- an asset mirror that copies the site's images, scripts and style sheets
  (`src/scripts/mirror-assets.js`);
- three repair passes over the generated pages (`fix-all-pages.py`, `fix-astro-files.py`,
  `cleanup-pages.py`);
- the `WordPressConverter` class of `src/scripts/wordpress-converter.js`.

This project models the deterministic core of those scripts:

- page identity and output paths;
- the string normalisers and escapers;
- the link and asset rewriting rules;
- frontmatter serialisation;
- the worklist loops (pagination, the crawler, the asset queue);
- the repair passes.

The network, the file system, the HTML parser and the URL parser are abstracted away:

- A parsed HTML document is the sequence of its elements in document order. Each element is a
  tag and an attribute map.
- Fetching, URL resolution, JSON encoding, `slugify`, Turndown and the other library calls are
  functions the caller passes in.
- The files a script reads and writes are a map from path to text.

Each source file has its own module:

- `ScrapeConverter`, `WpConverter`, `RebuildPages`, `GenerateAstro`, `WpScraper`,
  `MirrorAssets`, `FixAllPages`, `FixAstroFiles`, `CleanupPages`, `WpConverterJs`.

They share a few modules:

- `Text`: Python and JavaScript string operations;
- `Seqs`: sequence helpers and insertion-ordered sets;
- `Paths`: paths as segment lists;
- `Html`: elements and URLs;
- `Json`: decoded JSON values and the two languages' truthiness;
- `Frontmatter`: frontmatter blocks;
- `Converters`: the rules both converters share;
- `Repair`: the title search, `re.sub` templates and the main loop the repair passes share;
- `Options`: the option datatype.

Regular expressions are written out as scanners over the text. A module's doc comment says which
pattern a scanner reads, and lemmas tie each scanner to a declarative reading of its pattern:
leftmost match, lazy or greedy group, and whether `.` matches a line feed.

## Model

| member | source | states |
|---|---|---|
| Converters.SiteUrl | wordpress-converter.py:20 | the site URL the converters keep has no trailing `/` and is a prefix of the URL they were given |
| Converters.SiteUrlTrailingSlash | scrape-converter.py:19 | adding a trailing `/` to the given URL does not change the site URL |
| Converters.LastIndex | wordpress-converter.py:107 | the index of the last occurrence of a character, or -1 when the character does not occur |
| Converters.SplitExt | wordpress-converter.py:108 | `os.path.splitext`: the two parts concatenate to the name; a non-empty extension starts at the last `.`, holds no other `.`, and follows at least one character that is not `.`; no extension means every `.` is one of the leading ones |
| Converters.DownloadImage | wordpress-converter.py:100-126 | the result is the original URL, or `/images/<name>`, and it is the latter only when the image was stored under that name |
| Converters.ImageNameExtension | scrape-converter.py:64-72 | with no name given, the stored file keeps the extension of the URL's last path segment, or gets `.jpg` when it has none |
| Converters.WpImageName | wordpress-converter.py:140 | the name chosen for a content image always starts with `wp_` |
| Converters.DownloadedImagePath | scrape-converter.py:101-103 | a content image's new `src` is its old URL or a path under `/images/wp_` |
| Converters.WithDownloadedSrc | wordpress-converter.py:141-142 | the image keeps its tag and every attribute except `src`, which becomes the result of the download |
| Converters.LinkRuleKeeps | wordpress-converter.py:145-150 | elements that are not links, and links whose `href` does not contain the site URL, are left unchanged |
| Converters.LinkRuleRemoves | scrape-converter.py:106-110 | a link to the site loses every occurrence of the site URL (at least one), so its `href` is shorter by that many copies, and no other attribute changes |
| Converters.LinkRuleMayLeaveSite | wordpress-converter.py:150 | a single `replace` pass can leave the site URL in the `href`, rebuilt from the pieces around a removed copy |
| Converters.AstroPagePathStem | wordpress-converter.py:272-275 | the Astro page of a slug is `src/pages/index.astro` for `home` and `src/pages/<slug>.astro` otherwise |
| Converters.AstroPathsCollide | scrape-converter.py:207-210 | two slugs share an Astro page exactly when they are equal, or one is `home` and the other `index` |
| ScrapeConverter.GetPageUrls | scrape-converter.py:35-56 | an API answer other than 200 gives no URLs; otherwise the URLs are those of the records with a slug, in order |
| ScrapeConverter.PageUrlsShape | scrape-converter.py:48-54 | there is one URL per record with a truthy slug, and each URL is the site itself or `<site>/<slug>/` for the slug of one of the records |
| ScrapeConverter.SlugOf | scrape-converter.py:238-240 | the slug derived from a page URL is never empty and, unless it is `home`, neither starts nor ends with `/` |
| ScrapeConverter.SlugRoundTrip | scrape-converter.py:48-54 | deriving the slug from the URL built for a slug gives that slug back: always for `home`, and for any other slug without `/` in which the site URL does not reappear |
| ScrapeConverter.HomeSlug | scrape-converter.py:238-240 | the site URL itself gets the slug `home` |
| ScrapeConverter.StripDelimited | scrape-converter.py:238 | stripping `/` from both ends of `/<name>/` gives the name back when it holds no `/` |
| ScrapeConverter.AbsoluteSrcIdempotent | scrape-converter.py:93-98 | for an `http` site URL and a join that gives an `http` URL, the absolute source starts with `http`, a source that already did is kept, and applying the rule twice changes nothing more |
| ScrapeConverter.ImgRuleEffect | scrape-converter.py:89-103 | an image with a `src` ends up with its absolute source or a `/images/wp_` path; every other attribute, and every element that is not an image with a `src`, is left alone |
| ScrapeConverter.ProcessContent | scrape-converter.py:86-112 | the page is updated in place: the image rule applied to every element, then the link rule |
| ScrapeConverter.ConvertToAstroPage | scrape-converter.py:162-215 | the Markdown copy is the title/description/draft frontmatter and the content, at `<output_dir>/pages/<slug>.md`; the Astro page embeds the escaped title and content and goes to the Astro page path of the slug |
| ScrapeConverter.MarkdownLines | scrape-converter.py:175-179 | read line by line, the Markdown copy is `---`, the title, description and draft lines in that order, `---`, an empty line, then the content's lines, provided the encoder emits no line feed |
| ScrapeConverter.FStringPlain | scrape-converter.py:193-203 | literal text without braces is copied to the result unchanged, in front of whatever the rest of the f-string gives |
| ScrapeConverter.FStringField | scrape-converter.py:194 | a replacement field `{name}` contributes the value of `name`, followed by the rest of the f-string |
| ScrapeConverter.FStringBraces | scrape-converter.py:193-203 | a doubled brace `{{` or `}}` stands for one literal brace |
| ScrapeConverter.FStringBacktick | scrape-converter.py:201 | a replacement field that starts with a backtick makes the whole f-string a syntax error |
| ScrapeConverter.PageTemplateRejected | scrape-converter.py:193-203 | the Astro page template as written is rejected whatever its fields hold, because of the `` {`{escaped_content}`} `` of line 201 |
| ScrapeConverter.IntendedTemplatePage | scrape-converter.py:193-203 | with the literal braces of line 201 doubled, the template gives exactly the Astro page of the escaped title and content |
| WpConverter.ApiRootOf | wordpress-converter.py:20-21 | the API root is the given URL without its trailing slashes, followed by `/wp-json/wp/v2`; extra trailing slashes on the given URL make no difference |
| WpConverter.FetchAll | wordpress-converter.py:38-58 | pages 1, 2, … are requested in order until the first answer that is not 200 or is empty; the result is the concatenation, in order, of the items of every page before it |
| WpConverter.FetchPosts | wordpress-converter.py:32-60 | the posts are everything the pagination loop over `<api>/posts` received before it stopped |
| WpConverter.FetchPages | wordpress-converter.py:62-90 | the pages are everything the pagination loop over `<api>/pages` received before it stopped |
| WpConverter.Rendered | wordpress-converter.py:157-158 | a dict field gives its `rendered` entry (default `''`), a string field is itself, and a missing field is `''` |
| WpConverter.ProcessedContent | wordpress-converter.py:130-131 | empty or false content gives `""` |
| WpConverter.ProcessContent | wordpress-converter.py:128-152 | the parsed document is updated in place, images first then links, and rendered back; empty content gives `""` |
| WpConverter.CollectCategoryNames | wordpress-converter.py:167-178 | the names are those of the dict entries of a list of categories, in order; IDs and a value that is not a list give none |
| WpConverter.CategoryNamesFromDicts | wordpress-converter.py:170-176 | there is one name per dict entry, and every name is the `name` of one of them |
| WpConverter.Draft | wordpress-converter.py:187 | a record is a draft exactly when it has no `status` equal to the string `publish` |
| WpConverter.Description | wordpress-converter.py:183 | the description neither starts nor ends with whitespace |
| WpConverter.Filename | wordpress-converter.py:203 | the file name always ends in `.md` |
| WpConverter.FilenameCases | wordpress-converter.py:236 | a non-empty string slug names the file `<slug>.md`; a record with neither slug nor id gets `<kind>-unknown.md` |
| WpConverter.FilenameClash | wordpress-converter.py:203 | a post whose slug is `post-5` is written to the same file as a post with no slug and id 5 |
| WpConverter.ConvertPost | wordpress-converter.py:154-209 | the post goes to `<output_dir>/posts/<file name>`, and its text is the six-field frontmatter block followed by the processed content |
| WpConverter.ConvertPage | wordpress-converter.py:211-242 | the page goes to `<output_dir>/pages/<file name>`, and its text is the title/description/draft block followed by the processed content |
| WpConverter.PostLayout | wordpress-converter.py:190-200 | read line by line, a post is `---`, the title, description, date and author lines, `tags:` and one `  - name` line per category in order, the draft line, `---`, an empty line and the content's lines |
| WpConverter.CreateAstroPages | wordpress-converter.py:244-280 | the files written are the page files of the records, in order, skipping those without a slug |
| WpConverter.AstroPagesFromSlugs | wordpress-converter.py:248-251 | there is exactly one Astro page per record with a slug, in record order, at the Astro page path of its slug |
| WpConverter.AstroPageTextLines | wordpress-converter.py:258-269 | read line by line, the Astro page is the frontmatter with the title, the layout and prose wrappers, the title heading, then the lines of the `set:html` block holding the content, provided the title is one line |
| RebuildPages.DropDescriptionTidy | rebuild-pages.py:15 | on tidy text the second substitution removes a final ` description:` and nothing else |
| RebuildPages.CleanTitleSuffix | rebuild-pages.py:10-16 | `clean_title` is the trimmed, whitespace-collapsed title with one final ` description:` removed |
| RebuildPages.CleanTitleTidy | rebuild-pages.py:13-15 | a cleaned title has no line feed, no tab, no two adjacent spaces and no whitespace at either end |
| RebuildPages.TidyFixed | rebuild-pages.py:13 | trimming and collapsing tidy text leaves it unchanged |
| RebuildPages.CleanTitleDropsOne | rebuild-pages.py:15 | a tidy title followed by ` description:` cleans back to the title |
| RebuildPages.CleanTitleNotIdempotent | rebuild-pages.py:15 | a title ending in two ` description:` fragments loses only one per call, so a second call changes it again |
| RebuildPages.CleanTitleDropsTrailingDescription | rebuild-pages.py:10-16 | whitespace runs inside the title, a `description:` after whitespace at its end and the whitespace after that all disappear |
| RebuildPages.CleanTitleExample | rebuild-pages.py:10-16 | `clean_title("Foo\n\n  Bar   description: ")` is `"Foo Bar"` |
| RebuildPages.TagGaps | rebuild-pages.py:42 | removing the whitespace between tags keeps the first character and empties only empty text |
| RebuildPages.TagGapsNoGap | rebuild-pages.py:42 | after the substitution no whitespace is left between a `>` and a `<` |
| RebuildPages.TagGapsKeepsNonWs | rebuild-pages.py:42 | the substitution removes only whitespace: every other character is kept, in order |
| RebuildPages.CleanContentNoGap | rebuild-pages.py:41-42 | cleaned content has no whitespace between a `>` and a `<`, and in particular never holds `> <` |
| RebuildPages.CleanContentKeepsText | rebuild-pages.py:41-42 | cleaning the content removes only whitespace |
| RebuildPages.ExtractPageContent | rebuild-pages.py:18-50 | a failed request gives the title-cased page name and the placeholder; otherwise the cleaned title or the page name when there is no `title` element, and the cleaned content or the placeholder when there is no content container |
| RebuildPages.ExtractedPageClean | rebuild-pages.py:28-42 | a title found on the page comes out tidy, and content found on it has no gaps between tags and keeps all of its text |
| RebuildPages.SplitPagePath | rebuild-pages.py:56-61 | the page path is `src/pages/services/<name>.astro` for a service page and `src/pages/<name>.astro` otherwise, segment by segment |
| RebuildPages.LayoutImportResolves | rebuild-pages.py:56-61 | the layout import, resolved against the directory of the page, is `src/layouts/Layout.astro` for both kinds of page |
| RebuildPages.Outputs | rebuild-pages.py:105-109 | one page is written per entry of the list |
| RebuildPages.OutputsAt | rebuild-pages.py:106-108 | the page written at position `j` is the one for entry `j`, fetched from `<base>/<path>/` |
| RebuildPages.RebuildAll | rebuild-pages.py:105-109 | the loop of `main` writes the pages of the entries, in order |
| RebuildPages.ServiceEntryPath | rebuild-pages.py:108 | a service entry `services/<name>` is written to `src/pages/services/<name>.astro`, since the file name is the last segment of its path |
| RebuildPages.AstroPageLines | rebuild-pages.py:65-79 | read line by line, the rebuilt page is the layout import for its kind of page, the title and empty description constants, and the layout holding the content in a `set:html` template literal, provided title and content are one line each |
| GenerateAstro.ParseArgs | src/scripts/generate-astro-from-scrape.js:9-18 | the options are the defaults `src/pages/site`, `src/pages` and overwriting on, updated by scanning the arguments after the runtime and the script |
| GenerateAstro.ScanPlainFlags | src/scripts/generate-astro-from-scrape.js:15 | without directory flags the directories stay as they were, and overwriting is off exactly when it was off already or `--no-overwrite` is given |
| GenerateAstro.ScanArgsOrigin | src/scripts/generate-astro-from-scrape.js:11-16 | overwriting is only turned off, and only by `--no-overwrite`; each directory is the one it was or an argument that follows its flag |
| GenerateAstro.TrailingFlagKeeps | src/scripts/generate-astro-from-scrape.js:13-14 | a directory flag with no value after it keeps the directory as it was |
| GenerateAstro.ToAstroPathMirrors | src/scripts/generate-astro-from-scrape.js:33-37 | the `index.html` of a directory below the input directory becomes `index.astro` in the same directory below the output directory |
| GenerateAstro.ToAstroPathInjective | src/scripts/generate-astro-from-scrape.js:33-37 | different directories below the input directory never share a destination |
| GenerateAstro.ToAstroPathInPlace | src/scripts/generate-astro-from-scrape.js:33-37 | when the output directory is the input directory, each page is written next to its file |
| GenerateAstro.ExtractMainHtml | src/scripts/generate-astro-from-scrape.js:39-47 | the result is trimmed and holds the text of `main` when that is non-empty, else that of `body`, else nothing |
| GenerateAstro.WpPathShort | src/scripts/generate-astro-from-scrape.js:77 | the WordPress-path pattern matches exactly the paths starting, in any case, with `/wp-` or `/wpcontent` |
| GenerateAstro.TrailingSlash | src/scripts/generate-astro-from-scrape.js:78 | the new path ends with `/` and is the old path with at most one character added |
| GenerateAstro.TrailingSlashIdempotent | src/scripts/generate-astro-from-scrape.js:78 | adding the trailing slash twice is adding it once |
| GenerateAstro.AnchorRuleEffect | src/scripts/generate-astro-from-scrape.js:69-81 | only the `href` of a link can change, and only for a same-origin link outside WordPress's own paths, which gets its path with a trailing `/` and its search and hash |
| GenerateAstro.AnchorRuleKeeps | src/scripts/generate-astro-from-scrape.js:73-77 | a link that does not resolve, names another origin or a WordPress path is left untouched |
| GenerateAstro.RewriteInternalAnchors | src/scripts/generate-astro-from-scrape.js:67-84 | the page is updated in place, link by link, and rendered back; an empty rendering gives back the input |
| GenerateAstro.ToLocal | src/scripts/generate-astro-from-scrape.js:88-97 | the URL is kept, or becomes the path and search of a same-origin URL, dropping the hash; a URL that does not parse is kept |
| GenerateAstro.AssetPassesDisjoint | src/scripts/generate-astro-from-scrape.js:98-109 | the three asset passes select different elements, so together they apply each element's own rule |
| GenerateAstro.RewriteAssetsToLocal | src/scripts/generate-astro-from-scrape.js:86-111 | images, then stylesheet links, then scripts are made local in place, and the page is rendered back |
| GenerateAstro.IndentHtmlLines | src/scripts/generate-astro-from-scrape.js:142-148 | indenting keeps the number of lines; each line with something on it gets exactly `spaces` leading spaces and each blank line becomes empty |
| GenerateAstro.SanitizeTitleIsCollapse | src/scripts/generate-astro-from-scrape.js:150-152 | the quote replacement changes nothing: a title is trimmed and collapsed, which agrees with the Python `clean_title` when no ` description:` ends it |
| GenerateAstro.SanitizeTitleTidy | src/scripts/generate-astro-from-scrape.js:150-152 | a sanitized title is tidy and keeps every non-whitespace character of the input, in order; `null` and `undefined` give `''` |
| GenerateAstro.LayoutImport | src/scripts/generate-astro-from-scrape.js:159-163 | the import path always starts with `.` |
| GenerateAstro.LayoutImportResolves | src/scripts/generate-astro-from-scrape.js:158-163 | resolved against the page's directory, the import names `src/layouts/Layout.astro` below the working directory |
| GenerateAstro.LayoutImportUnderPages | src/scripts/generate-astro-from-scrape.js:161-163 | for a page `n` directories below `src/pages`, the import climbs `n + 1` levels and then names `layouts/Layout.astro` |
| GenerateAstro.WrapInLayoutDynamicLines | src/scripts/generate-astro-from-scrape.js:159-179 | read line by line, the generated page is the layout import, the JSON of the content and of the head styles, the layout with the title, the head slot that renders the styles, and `main` set to the content, provided none of these is more than one line |
| GenerateAstro.FirstPreferred | src/scripts/generate-astro-from-scrape.js:63 | the origin found is one of the origins and matches the site pattern; none is found only when no origin matches |
| GenerateAstro.FirstPreferredAddAll | src/scripts/generate-astro-from-scrape.js:51-63 | dropping repeats, as the `Set` does, does not change the origin found |
| GenerateAstro.DetectedOrigin | src/scripts/generate-astro-from-scrape.js:63-64 | the origin is the default one, or an origin the page names that matches the site pattern |
| GenerateAstro.DetectOrigin | src/scripts/generate-astro-from-scrape.js:49-65 | the origins are collected element by element into an insertion-ordered set and the first preferred one is chosen |
| GenerateAstro.DetectedOriginFirst | src/scripts/generate-astro-from-scrape.js:63-64 | the origin is the first preferred origin the page names, unless there is none or it is empty, when it is the default |
| GenerateAstro.FindPreferred | src/scripts/generate-astro-from-scrape.js:63 | the search over the origins finds the first preferred one |
| GenerateAstro.ExtractHeadStyles | src/scripts/generate-astro-from-scrape.js:113-127 | the absolute URLs of the page's stylesheets, in document order, skipping empty and malformed ones |
| GenerateAstro.LocalStyle | src/scripts/generate-astro-from-scrape.js:191-197 | only a stylesheet of the page's own origin changes, and then to its path and search; a URL that does not parse is kept |
| GenerateAstro.PageFor | src/scripts/generate-astro-from-scrape.js:185-207 | the page for a listed file goes to its Astro path |
| GenerateAstro.ConvertFile | src/scripts/generate-astro-from-scrape.js:185-207 | one turn of the loop computes the destination and the page of the file |
| GenerateAstro.StepOf | src/scripts/generate-astro-from-scrape.js:204-210 | with overwriting off and the destination present, nothing is written; otherwise the destination gets the page |
| GenerateAstro.GenerateFile | src/scripts/generate-astro-from-scrape.js:202-210 | the files after one turn are those before with the page written unless it is skipped |
| GenerateAstro.GeneratePages | src/scripts/generate-astro-from-scrape.js:181-214 | every listed file is counted, skipped or not, and the files are those the loop writes in order |
| GenerateAstro.WrittenKeys | src/scripts/generate-astro-from-scrape.js:204-210 | after the loop a file exists exactly when it existed before or is the destination of a listed page |
| GenerateAstro.NoOverwriteKeeps | src/scripts/generate-astro-from-scrape.js:204-205 | with `--no-overwrite` no file that existed changes |
| GenerateAstro.OverwriteLastWins | src/scripts/generate-astro-from-scrape.js:206-208 | when overwriting, a destination holds the page of the last file that goes to it |
| GenerateAstro.NoOverwriteFirstWins | src/scripts/generate-astro-from-scrape.js:204-208 | without overwriting, a new destination holds the page of the first file that goes to it |
| WpScraper.ParseArgs | src/scripts/wp-scraper.js:10-25 | the options are those the scan of the arguments gives, or the usage exit when the base is empty |
| WpScraper.ScanKeepsBase | src/scripts/wp-scraper.js:14 | without a base flag the base stays what it was |
| WpScraper.MissingBaseFails | src/scripts/wp-scraper.js:18-21 | without `--base` or `-b` the script stops with its usage message |
| WpScraper.BaseOnly | src/scripts/wp-scraper.js:11-24 | given only a base, the options are the base without one trailing slash, the output `src/pages/site` and a maximum of 30 |
| WpScraper.OneSlashDropped | src/scripts/wp-scraper.js:23 | exactly one trailing slash is taken off the base: `x/` gives `x` and `x//` gives `x/` |
| WpScraper.InternalExcludes | src/scripts/wp-scraper.js:27-39 | an internal URL is on the base's origin, outside `/wp-json`, `/wp-admin` and `/wp-login`, and is neither an `.xml`, `.pdf` or `.zip` download nor an image, script or style sheet |
| WpScraper.InternalIncludes | src/scripts/wp-scraper.js:31-35 | every other URL on the base's origin is internal |
| WpScraper.SuffixCase | src/scripts/wp-scraper.js:34 | the asset test ignores case and the download test does not: `/Logo.PNG` is an asset, `/feed.XML` is not a download |
| WpScraper.ToOutPathRoot | src/scripts/wp-scraper.js:44-45 | a page at `/` (or `//`) is saved as `<out>/index.html` |
| WpScraper.ToOutPathSegments | src/scripts/wp-scraper.js:44-46 | a page at `/a/b` or `/a/b/` is saved as `<out>/a/b/index.html` |
| WpScraper.ToOutPathTrailingSlash | src/scripts/wp-scraper.js:41-47 | a page and the same page with a trailing slash are saved to the same file |
| WpScraper.AssetRulesEffect | src/scripts/wp-scraper.js:56-79 | an asset keeps its tag and every attribute but the one its selector names, which becomes the resolved absolute URL or stays as it was; other elements are untouched |
| WpScraper.RewriteAssets | src/scripts/wp-scraper.js:53-80 | images, stylesheet links, then scripts are made absolute in place; when the base origin does not parse, nothing changes and the call fails |
| WpScraper.CutFragment | src/scripts/wp-scraper.js:127 | cutting the fragment leaves a prefix of the URL, keeps a URL without `#`, and leaves no `#` in a one-line URL |
| WpScraper.CutFragmentMeans | src/scripts/wp-scraper.js:127 | the result is the text before the first `#` that no line terminator follows, or the whole text when there is no such `#` |
| WpScraper.DiscoveredInternal | src/scripts/wp-scraper.js:126-130 | every link a page adds to the queue is internal and was not visited |
| WpScraper.DiscoverLinks | src/scripts/wp-scraper.js:122-132 | the queue grows at its end by the page's accepted links, in document order |
| WpScraper.VisitPage | src/scripts/wp-scraper.js:104-119 | one page is fetched, cleaned, made absolute and placed, or fails as a whole |
| WpScraper.Cap | src/scripts/wp-scraper.js:100 | no count below `max` reaches the cap, which bounds the loop |
| WpScraper.Visit | src/scripts/wp-scraper.js:101-135 | visiting the head of the queue adds it to the visited URLs and keeps the rest of the queue in front; either one page is counted or nothing is added to the queue |
| WpScraper.Step | src/scripts/wp-scraper.js:100-103 | each turn takes the head of the queue, keeps the rest in front, only extends the visited URLs, and counts at most one page |
| WpScraper.Crawled | src/scripts/wp-scraper.js:100 | the loop ends with an empty queue or once `max` pages are saved |
| WpScraper.CrawlAndSave | src/scripts/wp-scraper.js:93-139 | the crawl starts from the base alone in the queue and ends in the state the loop describes; a base that does not parse stops it before the loop |
| WpScraper.Scrape | src/scripts/wp-scraper.js:141-146 | the usage exit, or the crawl of the parsed base into the output directory made absolute |
| WpScraper.DiscoveredCrawlable | src/scripts/wp-scraper.js:128-129 | every discovered link may be crawled |
| WpScraper.VisitInv | src/scripts/wp-scraper.js:101-119 | a visit keeps the crawl invariant: distinct visited URLs, only the base and internal URLs queued or visited, the count equal to the saved pages, and every file from the start or from a visited page |
| WpScraper.StepInv | src/scripts/wp-scraper.js:100-135 | each turn of the loop keeps the crawl invariant |
| WpScraper.CrawledInv | src/scripts/wp-scraper.js:100-136 | the crawl invariant holds when the loop ends |
| WpScraper.CrawledWithinMax | src/scripts/wp-scraper.js:100-119 | every page was saved while the count was below `max` |
| WpScraper.WithinWholeMax | src/scripts/wp-scraper.js:100 | a whole-number `max` caps the saved pages, and a `max` that is not a positive number saves none |
| WpScraper.CrawlResult | src/scripts/wp-scraper.js:93-139 | no URL is fetched twice, only the base and internal URLs are visited, the count is the number of saved pages and at most a whole `max`, every file written belongs to a visited page, and the loop ends on an empty queue or the cap |
| WpScraper.FailedFetchSkipped | src/scripts/wp-scraper.js:133-135 | a URL whose fetch fails is still visited, but adds no page, no count, no file and no link |
| WpScraper.VisitedSkipped | src/scripts/wp-scraper.js:102 | a URL already visited is dropped without a fetch |
| MirrorAssets.ParseArgs | src/scripts/mirror-assets.js:8-22 | the options are those the scan of the arguments gives, or the usage exit when the base is empty |
| MirrorAssets.ScanKeepsBase | src/scripts/mirror-assets.js:13 | without a base flag the base stays what it was |
| MirrorAssets.MissingBaseFails | src/scripts/mirror-assets.js:16-19 | without `--base` or `-b` the script stops with its usage message |
| MirrorAssets.BaseOnly | src/scripts/mirror-assets.js:9-21 | given only a base, the options are the pages in `src/pages/site`, the base without one trailing slash, and the output `public` |
| MirrorAssets.TrailingBaseFails | src/scripts/mirror-assets.js:13-19 | a `--base` with no value after it leaves the base empty, so the script stops |
| MirrorAssets.OneSlashDropped | src/scripts/mirror-assets.js:20 | exactly one trailing slash is taken off the base |
| MirrorAssets.LocalPathBelow | src/scripts/mirror-assets.js:78-83 | a pathname `/a/b/c.css` is mirrored to `<outRoot>/a/b/c.css` |
| MirrorAssets.LocalPathIgnoresQuery | src/scripts/mirror-assets.js:79-82 | the query and the fragment of a URL play no part in where it is mirrored |
| MirrorAssets.ValueAt | src/scripts/mirror-assets.js:63-65 | a value found starts right after the attribute name and its quote and holds no quote |
| MirrorAssets.ValueAtMeans | src/scripts/mirror-assets.js:63-65 | the value found at a position is exactly the one `attr["']([^"']+)["']` matches there: the name in any case, a quote, non-quotes up to the first quote |
| MirrorAssets.ValueAtNone | src/scripts/mirror-assets.js:63-65 | no value is found at a position exactly when the pattern's tail matches nowhere there |
| MirrorAssets.LastValue | src/scripts/mirror-assets.js:63-65 | the value the greedy `[^>]+` leaves lies inside the range searched and holds no quote |
| MirrorAssets.LastValueMeans | src/scripts/mirror-assets.js:63 | the value returned is the one whose attribute name starts last in the range, as the greedy `[^>]+` backtracks from its longest run |
| MirrorAssets.LastValueNone | src/scripts/mirror-assets.js:63 | nothing is returned exactly when no value starts in the range |
| MirrorAssets.MatchAt | src/scripts/mirror-assets.js:63-65 | a match of the tag pattern at a position captures a value after it that holds no quote |
| MirrorAssets.MatchAtMeans | src/scripts/mirror-assets.js:63-65 | a match at a position requires the tag name there and captures the value whose attribute starts last after at least one character and before the tag's first `>`, and conversely |
| MirrorAssets.MatchAtNone | src/scripts/mirror-assets.js:63-65 | nothing matches at a position exactly when the tag name is not there or no value starts inside the tag |
| MirrorAssets.Captures | src/scripts/mirror-assets.js:63-65 | every captured value is non-empty and holds no quote |
| MirrorAssets.CapturesLeftmost | src/scripts/mirror-assets.js:63-65 | `matchAll` yields the leftmost match first and resumes after its closing quote |
| MirrorAssets.CapturesNone | src/scripts/mirror-assets.js:63-65 | when no position from the search start matches, nothing is captured |
| MirrorAssets.HrefsMeans | src/scripts/mirror-assets.js:56-61 | a URL is among the resolved values exactly when some scanned value resolves to it |
| MirrorAssets.ExtractAssetUrls | src/scripts/mirror-assets.js:54-67 | the asset URLs of a page are distinct |
| MirrorAssets.ExtractAssetUrlsMeans | src/scripts/mirror-assets.js:54-67 | a page names an asset URL exactly when one of its link, script or image values resolves to it |
| MirrorAssets.AssetRefsUnquoted | src/scripts/mirror-assets.js:63-65 | every scanned value is non-empty and holds no quote |
| MirrorAssets.CssMatch | src/scripts/mirror-assets.js:87-89 | a `url(...)` match found lies after the search position, with a non-empty argument |
| MirrorAssets.CssMatchMeans | src/scripts/mirror-assets.js:87-89 | the match found is the first `url(` at or after the search position whose argument up to the first `)` is non-empty and closed, and conversely |
| MirrorAssets.CssMatchNone | src/scripts/mirror-assets.js:87-89 | no match is found exactly when no such `url(...)` follows the search position |
| MirrorAssets.StripQuotes | src/scripts/mirror-assets.js:90 | removing the quotes takes at most one character from each end |
| MirrorAssets.StripQuotesMeans | src/scripts/mirror-assets.js:90 | exactly one leading quote and one trailing quote are removed when present; a lone quote leaves nothing |
| MirrorAssets.StripQuotesCases | src/scripts/mirror-assets.js:90 | a quoted argument loses its quotes, matched or not, and only one on each side |
| MirrorAssets.RefOf | src/scripts/mirror-assets.js:90-95 | a reference is followed only when trimming and unquoting leave something that is not `data:` and resolves, and then it is the resolved URL |
| MirrorAssets.SkippedRefs | src/scripts/mirror-assets.js:91 | empty and `data:` references are never followed |
| MirrorAssets.CssArgs | src/scripts/mirror-assets.js:87-89 | every `url(...)` argument found is non-empty |
| MirrorAssets.CssArgsFirst | src/scripts/mirror-assets.js:87-96 | the arguments start with that of the first `url(...)` after the search position, then those after its `)` |
| MirrorAssets.CssArgsNone | src/scripts/mirror-assets.js:87-89 | without a `url(...)` after the search position there are no arguments |
| MirrorAssets.RefsCons | src/scripts/mirror-assets.js:89-96 | the references of the first argument come before those of the others |
| MirrorAssets.FindStep | src/scripts/mirror-assets.js:89-96 | one turn of the `re.exec` loop leaves the same set of URLs to be built |
| MirrorAssets.CssUrls | src/scripts/mirror-assets.js:85-98 | the references of a style sheet are distinct and are exactly those of its `url(...)` arguments |
| MirrorAssets.FindCssUrls | src/scripts/mirror-assets.js:85-98 | the `re.exec` loop adds each reference to an insertion-ordered set and returns its elements |
| MirrorAssets.AddRef | src/scripts/mirror-assets.js:90-95 | one argument adds its reference, if it has one, to the set |
| MirrorAssets.SameOrigin | src/scripts/mirror-assets.js:113-114 | a URL is kept exactly when it is one of the inputs and is from the origin |
| MirrorAssets.AddSameOrigin | src/scripts/mirror-assets.js:113-115 | the same-origin URLs of a page are added to the set, in order |
| MirrorAssets.Collected | src/scripts/mirror-assets.js:108-116 | the URLs to download are distinct |
| MirrorAssets.CollectedMeans | src/scripts/mirror-assets.js:111-116 | a URL is to be downloaded exactly when it is from the origin and one of the pages names it |
| MirrorAssets.CollectAssets | src/scripts/mirror-assets.js:111-116 | the first loop reads each page and adds its same-origin asset URLs to the set |
| MirrorAssets.CssSuffixes | src/scripts/mirror-assets.js:128 | a URL ending in `.css`, or with `.css` in any case right before its query, is fetched as a style sheet |
| MirrorAssets.NoDotNotCss | src/scripts/mirror-assets.js:128 | a URL with no `.` is never a style sheet |
| MirrorAssets.PushSameOrigin | src/scripts/mirror-assets.js:132-134 | a style sheet's same-origin references are pushed onto the queue, in order |
| MirrorAssets.TryDownload | src/scripts/mirror-assets.js:127-143 | a fetch or write that throws changes nothing; otherwise the file is written and the references are queued |
| MirrorAssets.Dest | src/scripts/mirror-assets.js:125 | the file of a URL that parses is its local path |
| MirrorAssets.Visit | src/scripts/mirror-assets.js:122-143 | visiting the head of the queue adds it to the visited URLs and appends its references to the rest of the queue |
| MirrorAssets.StepWithin | src/scripts/mirror-assets.js:121-124 | within a closed finite set of URLs, each turn keeps the queue in the set and visits a new URL or shortens the queue |
| MirrorAssets.Run | src/scripts/mirror-assets.js:121-144 | the loop ends with an empty queue |
| MirrorAssets.DownloadAll | src/scripts/mirror-assets.js:119-144 | the second loop starts from the collected URLs and no visited URL, and ends in the state the loop describes |
| MirrorAssets.VisitKeepsVisited | src/scripts/mirror-assets.js:123-124 | a visit keeps the visited URLs distinct and from the origin |
| MirrorAssets.StepInv | src/scripts/mirror-assets.js:121-143 | each turn of the loop keeps the invariant |
| MirrorAssets.RunInv | src/scripts/mirror-assets.js:121-144 | the invariant holds when the queue is empty |
| MirrorAssets.MirrorResult | src/scripts/mirror-assets.js:119-146 | no URL is downloaded twice and only same-origin URLs are; the visited URLs, whose number is the reported total, are exactly the collected ones and the references of the visited style sheets; every file is one the site had or what a visit wrote |
| MirrorAssets.VisitedSkipped | src/scripts/mirror-assets.js:123 | a URL already visited is dropped without a fetch |
| MirrorAssets.FailedStillCounted | src/scripts/mirror-assets.js:124-143 | a URL whose fetch or write throws still counts as visited, but writes no file and queues nothing |
| MirrorAssets.NonCssNotScanned | src/scripts/mirror-assets.js:128-140 | an asset that is not a style sheet is fetched as bytes and never scanned, so its visit queues nothing |
| MirrorAssets.CollectedFromOrigin | src/scripts/mirror-assets.js:113-114 | the collected URLs are all from the origin |
| MirrorAssets.MirrorSite | src/scripts/mirror-assets.js:100-147 | the usage exit, a base that does not parse, or the download loop over the collected same-origin URLs into the absolute output directory |
| Repair.Find | fix-all-pages.py:33 | a position found is at or after the start and the pattern occurs there |
| Repair.FindFirst | fix-all-pages.py:33 | the search finds an occurrence no later than any occurrence at or after the start |
| Repair.TitleAt | fix-all-pages.py:19 | a `title:` match is anchored at the keyword and its group starts after the optional whitespace and quote |
| Repair.FindTitle | fix-all-pages.py:19 | a match found lies within the text |
| Repair.FindTitleMeans | fix-all-pages.py:19 | the title pattern matches exactly when the text contains `title:`, at its first occurrence, with a group free of quotes |
| Repair.QuotedTitle | fix-all-pages.py:19 | on `title: "T"…` the match is the whole quoted title and its group is `T` |
| Repair.ExpandPlain | fix-all-pages.py:56 | text without backslashes passes through the template expansion of `re.sub` unchanged |
| Repair.ExpandEscaped | fix-all-pages.py:56 | a title escaped with backslashes before its quotes also passes through `re.sub` unchanged |
| Repair.ExpandExamples | fix-all-pages.py:56 | `re.sub` rejects an unknown escape such as `\d`, a group reference `\1` and the octal escape `\400`; it turns `\n` into a newline, `\101` into `A` and `\0` into the NUL character, and keeps `\'` |
| Repair.SubFirstKeeps | fix-all-pages.py:56 | replacing the first match keeps the text before and after it and changes the length by the size of the replacement |
| Repair.PlaceholderCounts | cleanup-pages.py:36 | the placeholder section adds no `---` and no `import Layout` beyond those in the title |
| Repair.FixEach | cleanup-pages.py:52-61 | the count is at most the number of files, and no file is created or removed |
| Repair.FixAll | cleanup-pages.py:56-59 | the loop over the files agrees with the recursive definition |
| Repair.FixEachDistinct | cleanup-pages.py:52-61 | over distinct files, the count is the number of files fixed and written, each such file holds its new text and every other file is unchanged |
| CleanupPages.CleanAstroFile | cleanup-pages.py:10-50 | a page is rewritten exactly when it has more than two `---` or more than one `import Layout` and a non-empty title, and then it becomes the clean page for that title |
| CleanupPages.NoTitleNoRewrite | cleanup-pages.py:21-22 | a page with no `title:` is never rewritten |
| CleanupPages.CleanAll | cleanup-pages.py:52-61 | the main loop is the repair loop with this page fix |
| CleanupPages.CleanPageFences | cleanup-pages.py:26-38 | the clean page holds two `---` plus three for every `---` in the title |
| CleanupPages.CleanPageImports | cleanup-pages.py:26-38 | the clean page holds one `import Layout` plus three for every one in the title |
| CleanupPages.SecondRunNoop | cleanup-pages.py:17 | when the title holds neither `---` nor `import Layout`, the clean page is not duplicated, so a second run leaves it alone |
| FixAstroFiles.NeedsAtMeans | fix-astro-files.py:21 | the scan at a position matches exactly when the title-needs-quotes pattern matches there |
| FixAstroFiles.NeedsQuotesMeans | fix-astro-files.py:21 | the scan of the whole text succeeds exactly when the pattern matches somewhere |
| FixAstroFiles.QuoteTitlesNoKey | fix-astro-files.py:22 | text without `title: ` is left as it is |
| FixAstroFiles.QuoteTitlesLine | fix-astro-files.py:22 | an unquoted title value running to the end of its line is put in double quotes, and the rest is processed in turn |
| FixAstroFiles.DivAtMeans | fix-astro-files.py:26 | the scan matches exactly when the `set:html` pattern matches, and its group end is the only one possible |
| FixAstroFiles.SubDivsNoMatch | fix-astro-files.py:25-29 | text where the pattern matches nowhere is left as it is |
| FixAstroFiles.SubDivsOne | fix-astro-files.py:25-29 | a `<div set:html=X />` with no `>` in `X` becomes ``<div set:html={`X`} />`` |
| FixAstroFiles.SubDivsMarks | fix-astro-files.py:25-29 | if the pattern matches anywhere, the result contains ``set:html={` `` |
| FixAstroFiles.FixAstroFile | fix-astro-files.py:10-41 | a page is rewritten exactly when it has `set:html=` and no ``set:html={` ``, and then it gets its titles quoted and its `set:html` values wrapped |
| FixAstroFiles.TitlesKeptUnlessMarked | fix-astro-files.py:21-22 | titles are changed only when the needs-quotes pattern matches |
| FixAstroFiles.SecondRunNoop | fix-astro-files.py:17 | a page the fix rewrote and whose `set:html` pattern matched is not rewritten by a second run |
| FixAstroFiles.FixAllFiles | fix-astro-files.py:43-52 | the main loop is the repair loop with this page fix |
| FixAllPages.Lazy | fix-all-pages.py:33 | a lazy match found lies within the text, with its group right after the opening and right before the closing |
| FixAllPages.MatchAt | fix-all-pages.py:33 | the match at an opening runs to the first closing the group may reach |
| FixAllPages.LazyFinds | fix-all-pages.py:33 | the lazy pattern matches exactly when some opening is followed by a closing the group may reach |
| FixAllPages.LazyFirst | fix-all-pages.py:33 | the match found is the leftmost, and the shortest at that position |
| FixAllPages.NoFitAt | fix-all-pages.py:60 | without `DOTALL` no match can start at an opening whose closing is only beyond a newline |
| FixAllPages.Wrap | fix-all-pages.py:41-44 | the content comes out wrapped in backticks, and content already wrapped is kept |
| FixAllPages.WrapIdempotent | fix-all-pages.py:41-44 | wrapping twice is wrapping once |
| FixAllPages.WrapOnePair | fix-all-pages.py:42 | content not wrapped gets exactly one pair of backticks, with none left inside at either end |
| FixAllPages.Placeholder | fix-all-pages.py:47 | the placeholder is wrapped in backticks |
| FixAllPages.PlaceholderShows | fix-all-pages.py:47 | the placeholder shows the escaped title and the coming-soon text |
| FixAllPages.HtmlBody | fix-all-pages.py:33-50 | the new `set:html` value is always wrapped in backticks |
| FixAllPages.HtmlBodyKeepsTemplate | fix-all-pages.py:36-44 | content already in backticks is kept as it is |
| FixAllPages.HtmlBodyPlaceholder | fix-all-pages.py:45-50 | missing, empty or `=` content gives the placeholder with the title |
| FixAllPages.AddImportPresent | fix-all-pages.py:66 | a page that already imports the layout gets no second import |
| FixAllPages.AddImportNowhere | fix-all-pages.py:66-68 | a page with no `---` and no `<Layout>` is left as it is by that step |
| FixAllPages.AddImportAdds | fix-all-pages.py:66-67 | a page with a `---` and no import gets the import line |
| FixAllPages.AddImportOnce | fix-all-pages.py:66-68 | once the import is added, a second application changes nothing |
| FixAllPages.FixPage | fix-all-pages.py:10-78 | a page is rewritten only when it has a title pattern with a non-empty title |
| FixAllPages.TitleStep | fix-all-pages.py:56 | for a title without backslashes, the first title match is replaced by `title: "escaped"` and the rest of the page is kept |
| FixAllPages.FixAllFiles | fix-all-pages.py:80-91 | the main loop is the repair loop with this page fix |
| WpConverterJs.Scrub | src/scripts/wordpress-converter.js:33 | an element keeps its tag and every attribute except `class`, `id` and `style` |
| WpConverterJs.ConvertHtmlToMarkdown | src/scripts/wordpress-converter.js:26-37 | falsy input gives `''`; otherwise Turndown gets the scrubbed document |
| WpConverterJs.ScrubbedDocument | src/scripts/wordpress-converter.js:33 | what Turndown sees has every tag and every attribute but `class`, `id` and `style` as the document had it |
| WpConverterJs.ScrubIdempotent | src/scripts/wordpress-converter.js:33 | scrubbing twice is scrubbing once |
| WpConverterJs.MarkdownIgnoresStyling | src/scripts/wordpress-converter.js:33-36 | two documents that differ only in `class`, `id` and `style` give the same Markdown |
| WpConverterJs.AttrOf | src/scripts/wordpress-converter.js:53 | `attr` is `undefined` exactly when the attribute is missing, and its value otherwise |
| WpConverterJs.ImageDefaults | src/scripts/wordpress-converter.js:54-55 | `alt` and `title` are the attribute when it is there and non-empty, and `''` otherwise |
| WpConverterJs.Images | src/scripts/wordpress-converter.js:50-59 | one image object per `img` element, in document order |
| WpConverterJs.ImagesSnoc | src/scripts/wordpress-converter.js:50-59 | one more element adds its image exactly when it is an `img` |
| WpConverterJs.ImagesAppend | src/scripts/wordpress-converter.js:50-59 | the images of two documents in a row are those of the first, then those of the second |
| WpConverterJs.NoImgNoImages | src/scripts/wordpress-converter.js:50-59 | a document without `img` has no images |
| WpConverterJs.ExtractImages | src/scripts/wordpress-converter.js:44-62 | falsy input gives `[]`; otherwise the loop gives the images of the document |
| WpConverterJs.Prop | src/scripts/wordpress-converter.js:71-76 | a property is `undefined` exactly when the post has no such key |
| WpConverterJs.ConvertPostToFrontmatter | src/scripts/wordpress-converter.js:69-78 | each field is the post's value when truthy and its default otherwise; draft exactly when the status is not `publish` |
| WpConverterJs.DraftAgrees | src/scripts/wordpress-converter.js:76 | the JavaScript and the Python converter agree on which posts are drafts |
| WpConverterJs.PublishedOnlyByStatus | src/scripts/wordpress-converter.js:76 | a post is published exactly when its status is the string `publish` |
| WpConverterJs.ClockOnlyWithoutDate | src/scripts/wordpress-converter.js:73 | the clock matters only when the post has no truthy date |
| WpConverterJs.TagsAlwaysList | src/scripts/wordpress-converter.js:75 | the tags are always a list, and a post's own list, even an empty one, is kept |
| Frontmatter.WriteScalarBlock | scrape-converter.py:175-178 | the loop writes the opening `---`, one `key: json` line per field and the closing `---` with an empty line |
| Frontmatter.WritePostBlock | wordpress-converter.py:191-199 | the loop writes one `key:` line and one `  - item` line per item for a list, and one `key: json` line for anything else |
| Frontmatter.ScalarDocumentLines | scrape-converter.py:175-179 | when no key or value holds a newline, the lines of the document are the fence, one line per field, the fence, an empty line and the body's lines |
| Frontmatter.PostDocumentLines | wordpress-converter.py:191-200 | the same for a post's block, lists included |
| Frontmatter.PostBlockWithoutLists | wordpress-converter.py:192-198 | without list values a post's block has one `key: json` line per field |
| Paths.Resolve | src/scripts/generate-astro-from-scrape.js:35 | resolving path segments against a normal path gives a normal path |
| Paths.RelativeResolves | src/scripts/generate-astro-from-scrape.js:161 | the relative path from one directory to another, resolved against the first, gives the second |
| Paths.JoinRelative | src/scripts/generate-astro-from-scrape.js:34-35 | `path.join(from, path.relative(from, to))` is `to` |
| Paths.RelativeBelow | src/scripts/generate-astro-from-scrape.js:34 | the relative path to a directory below is the rest of its segments |
| Paths.ResolveConcat | src/scripts/generate-astro-from-scrape.js:35 | resolving two runs of segments one after the other is resolving them together |
| Paths.ResolveUps | src/scripts/generate-astro-from-scrape.js:161 | each `..` takes one segment off |
| Paths.CommonPrefix | src/scripts/generate-astro-from-scrape.js:161 | the shared prefix of two paths is equal on both and cannot be extended |
| Seqs.AddAll | src/scripts/mirror-assets.js:113-115 | adding to an insertion-ordered set keeps what it had at the front, keeps it duplicate-free and holds exactly the old and the new elements |
| Seqs.Dedup | src/scripts/mirror-assets.js:108-116 | an insertion-ordered set of a sequence is duplicate-free with the same elements |
| Seqs.AddEach | src/scripts/mirror-assets.js:113-115 | the loop adding elements one at a time agrees with the definition |
| Seqs.AddAllConcat | src/scripts/mirror-assets.js:111-116 | adding two runs of elements one after the other is adding them together |
| Json.Get | wordpress-converter.py:160-161 | `dict.get` gives the value when the key is there and the default otherwise |
| Json.JsOr | src/scripts/wordpress-converter.js:71-75 | `a \|\| b` is `a` when it is truthy and `b` otherwise |
| Html.SetAttr | src/scripts/generate-astro-from-scrape.js:79 | setting an attribute changes that attribute only |
| Html.MapInPlace | src/scripts/generate-astro-from-scrape.js:97-109 | each element of the document is replaced by its rewritten form, in place |
| Text.Strip | rebuild-pages.py:13 | the result is no longer than the input and neither starts nor ends with whitespace |
| Text.StripEmpty | fix-all-pages.py:24-27 | a stripped title is empty exactly when the title is all whitespace |
| Text.NonWsStrip | rebuild-pages.py:13 | stripping keeps every character that is not whitespace |
| Text.Collapse | rebuild-pages.py:13 | collapsing runs of whitespace gives a result that is empty only for empty input |
| Text.CollapseSingleSpaced | rebuild-pages.py:13 | after collapsing, whitespace is only single spaces |
| Text.CollapseKeepsNonWs | rebuild-pages.py:13 | collapsing keeps every character that is not whitespace, in order |
| Text.CollapseIdempotent | rebuild-pages.py:13 | collapsing twice is collapsing once |
| Text.StripCollapse | rebuild-pages.py:13 | stripping and collapsing commute |
| Text.EscapeQuotes | fix-all-pages.py:30 | escaping adds one character per quote |
| Text.EscapeQuotesIsChainedReplace | fix-all-pages.py:30 | escaping is the two `replace` calls one after the other |
| Text.EscapedQuotesBackslashed | scrape-converter.py:189-190 | after escaping, every quote has a backslash before it |
| Text.UnescapeEscape | scrape-converter.py:189-190 | for text without backslashes, escaping can be undone |
| Text.ReplaceAbsent | fix-all-pages.py:67-68 | replacing a pattern that does not occur changes nothing |
| Text.ReplaceIntroduces | fix-all-pages.py:67 | replacing a pattern that occurs puts the replacement in the text |
| Text.RemoveAllLength | scrape-converter.py:110 | removing every occurrence shortens the text by the pattern's length for each |
| Text.CountOccPositive | scrape-converter.py:109-110 | the count of a pattern is positive exactly when the text contains it |
| Text.Split | rebuild-pages.py:108 | splitting gives at least one piece and no piece holds the separator |
| Text.JoinSplit | rebuild-pages.py:108 | joining the pieces with the separator gives the text back |
| Text.SplitJoin | rebuild-pages.py:108 | splitting a join of separator-free pieces gives the pieces back |
| Text.LastPiece | scrape-converter.py:101 | the last piece holds no separator and ends the text |
| Text.DropOneTrailing | src/scripts/mirror-assets.js:20 | one trailing character is taken off when there is one |
| Text.RStripChar | scrape-converter.py:19 | `rstrip` takes off only the given character, all of it at the end |
| Text.LowerAll | src/scripts/mirror-assets.js:128 | every character is lowered, one for one |

## Left out

- Network access (`requests.get`, `fetch`, the User-Agent headers, HTTP status codes) is an oracle that succeeds with the data or fails.
- Reading and writing files (`open`, `fs.*`, `os.makedirs`, `fs.mkdirSync`) is a map from path to text. A write that fails part of the way is not modelled.
- Directory walking and `glob` (`listHtmlFiles`, `walkHtmlFiles`, `glob.glob("src/pages/*.astro")`) are oracles giving a list of files. The model does not depend on their order.
- Parsing HTML and moving through the parsed tree (BeautifulSoup, cheerio, `find`, `find_all`, `decompose`, `.html()`) is abstracted. A document is the flat sequence of its elements, and the parser and renderer are parameters.
- The selector logic of `scrape_page` (scrape-converter.py:114-160) goes through that parser and is not modelled. Only the content and title it hands on are.
- URL parsing (`new URL`, `urljoin`, `urlparse`) is an oracle giving origin, pathname, search and hash. Reference resolution as section 5 of RFC 3986 and the WHATWG URL Standard define it is not modelled.
- JSON encoding (`json.dumps`, `JSON.stringify`), `slugify`, Python's `str.title()` and `str()` of non-string values are functions the caller supplies.
- Turndown and its configuration are a function from HTML to Markdown.
- The clock (`new Date().toISOString()`) is a parameter.
- `time.sleep` delays, `async`/`await` scheduling and all logging and `print` output carry no behaviour here.
- `fetch_media` (wordpress-converter.py:92-98) only returns a fetched record and is not modelled.
- `fix-titles.py` is not part of this model. Its multi-line backtracking regular expressions are out of proportion to what the script does.
- `processWordPressExport` (src/scripts/wordpress-converter.js:85) only logs and is not modelled. `test-conversion.js` and `src/scripts/convert-example.js` call a method the class does not define.
- `wrapInLayout` (src/scripts/generate-astro-from-scrape.js:129-140) is never called and is not modelled. `wrapInLayoutDynamic` is.
- The `main` of `src/scripts/generate-astro-from-scrape.js` (lines 216-221) is not modelled as a whole. `GeneratePages` starts from the absolute input and output directories that `main` computes.
- Whitespace is the ASCII set (space, tab, line feed, carriage return, vertical tab, form feed). Python's `\s` and `str.strip()` and JavaScript's `\s` and `trim()` also match other Unicode spaces.
- Python `re.sub` replacement templates are expanded for their character escapes, octal ones included. The three patterns of fix-all-pages.py:56-63, whose templates hold page text, have no groups, so a numeric group reference such as `\1` there is the error Python raises for it. `\g<...>` is treated as an unknown escape, that is as an error, although `\g<0>` names the whole match. The constant template `title: "\1"` of fix-astro-files.py:22 is modelled by what it produces, not through `Repair.Expand`.
- Exceptions other than a failed fetch or write, or a bad `re.sub` template, are not modelled.
- WpScraper.ParseArgs: a `--max` value is a JavaScript number or `NaN`. `Infinity` is left out because the crawl would then have no bound.
- MirrorAssets.MirrorSite: termination of the download queue needs a finite set of URLs closed under what the style sheets reference. The source does not guarantee this for a site that generates URLs without end, so it is a precondition of the model.
- MirrorAssets.DownloadAll: the same finite, closed set of URLs is a precondition.
- FixAllPages.FixPage: the contract says when a page can be fixed, not that every such page is. A title or content that `re.sub` cannot use as a template makes the fix fail.
- WpConverter.Filename: its own contract says only that the name ends in `.md`. The `<slug>.md` and `<kind>-unknown.md` cases are stated by `WpConverter.FilenameCases`, and the `<kind>-<id>.md` case goes through the supplied `str()`.
- WpConverterJs.MarkdownIgnoresStyling: an element is only a tag and its attributes, with no text and no nesting, so the lemma compares documents by their elements alone and says nothing about the text Turndown converts.
- WpScraper.CutFragment: its own contract gives only a prefix without `#`. Where the cut falls is stated by `WpScraper.CutFragmentMeans`.
- MirrorAssets.ValueAt: its own contract gives only where the value starts and that it holds no quote. Which value is found, and when there is none, is stated by `MirrorAssets.ValueAtMeans` and `MirrorAssets.ValueAtNone`.
- MirrorAssets.LastValue: its own contract gives only bounds and no quote. That the value is the last in the range is stated by `MirrorAssets.LastValueMeans` and `MirrorAssets.LastValueNone`.
- MirrorAssets.MatchAt: its own contract gives only bounds and no quote. Which value the pattern captures is stated by `MirrorAssets.MatchAtMeans` and `MirrorAssets.MatchAtNone`.
- MirrorAssets.Captures: its own contract gives only non-empty values without quotes. That they are the successive leftmost matches is stated by `MirrorAssets.CapturesLeftmost` and `MirrorAssets.CapturesNone`.
- MirrorAssets.CssMatch: its own contract gives only a non-empty argument after the search position. That it is the first `url(...)` is stated by `MirrorAssets.CssMatchMeans` and `MirrorAssets.CssMatchNone`.
- MirrorAssets.StripQuotes: its own contract gives only length bounds. Which quotes go is stated by `MirrorAssets.StripQuotesMeans`.
- MirrorAssets.CssArgs: its own contract gives only non-empty arguments. That they are the matches in order is stated by `MirrorAssets.CssArgsFirst` and `MirrorAssets.CssArgsNone`.
- The JavaScript `this` of the `WordPressConverter` class holds only the Turndown service, so its methods are functions of their arguments.
- The two ways `src/scripts/generate-astro-from-scrape.js` loads a page, `cheerio.load(html)` and `cheerio.load(html, { decodeEntities: false })` (lines 68 and 87), are two separate parser functions. How each treats character references is not modelled.
- ScrapeConverter.FString: a replacement field ends at the first `}`; its expression, conversions and format specification are evaluated by the function the caller passes. Of the syntax errors of an f-string, only an unclosed, empty or backtick-led field and a lone `}` are modelled.
- ScrapeConverter.ConvertToAstroPage: it writes the page the template evidently means, `IntendedTemplate`. As written, the f-string of scrape-converter.py:193-203 is a syntax error, so Python rejects the whole script before anything runs (see Findings).
- WpConverter.FetchAll: it requires that some page of the listing stops the loop, that is, an answer that is not 200 or is empty. The source loops without end on a server that answers every page with a non-empty 200, so termination is a precondition of the model. FetchPosts and FetchPages inherit it.

## Findings

| source | as written | input that shows it | evidently intended | confidence | as-written member | corrected member |
|---|---|---|---|---|---|---|
| scrape-converter.py:201 | the f-string of the Astro page contains `` {`{escaped_content}`} ``, whose single `{` opens a replacement field starting with a backtick | any: the script does not compile, so every run fails | `` {{`{escaped_content}`}} ``, the doubled braces rebuild-pages.py:72 uses, giving the literal `` {`...`} `` of Astro's `set:html` | not executed | ScrapeConverter.PageTemplateRejected | ScrapeConverter.IntendedTemplatePage |
