/** `src/scripts/wordpress-converter.js`: the `WordPressConverter` class of the site's own
    scripts. It turns a post's HTML into Markdown (through cheerio and Turndown, which the
    caller passes in), lists the images of a post's HTML, and builds the frontmatter object of
    a post record. None of its methods changes the object, so they are modelled as functions
    of their arguments, with the Turndown service as a parameter. */
module WpConverterJs {
  import opened Text
  import opened Options
  import opened Json
  import opened Html
  import Seqs
  import Converters
  import WpConverter

  /** A JavaScript string argument, which may also be `undefined` or `null` (`None`). */
  type JsString = Option<String>

  /** `!htmlContent`: missing, `null`, or the empty string. */
  predicate Falsy(s: JsString) {
    s.None? || s.value == []
  }

  // ---------------------------------------------------------------- HTML to Markdown

  /** The attributes `$('*').removeAttr('class').removeAttr('id').removeAttr('style')` drops
      from every element. */
  predicate Dropped(name: String) {
    name == "class" || name == "id" || name == "style"
  }

  /** One element after the three `removeAttr` calls. */
  function Scrub(e: Element): (r: Element)
    ensures r.tag == e.tag
    ensures forall n :: n in r.attrs <==> n in e.attrs && !Dropped(n)
    ensures forall n :: n in r.attrs ==> r.attrs[n] == e.attrs[n]
  {
    Element(e.tag, map n | n in e.attrs && !Dropped(n) :: e.attrs[n])
  }

  /** `convertHtmlToMarkdown`: `''` for falsy input; otherwise the document, every element
      scrubbed, rendered back to HTML and given to Turndown. */
  function ConvertHtmlToMarkdown(html: JsString, parse: String -> Doc, render: Doc -> String,
                                 turndown: String -> String): (r: String)
    ensures Falsy(html) ==> r == ""
    ensures !Falsy(html) ==> r == turndown(render(Seqs.Map(Scrub, parse(html.value))))
  {
    if Falsy(html) then "" else turndown(render(Seqs.Map(Scrub, parse(html.value))))
  }

  /** What Turndown sees has no `class`, `id` or `style` left, and every other attribute and
      every tag as the document had it. */
  lemma ScrubbedDocument(doc: Doc)
    ensures var d := Seqs.Map(Scrub, doc);
            |d| == |doc| &&
            forall k, n :: 0 <= k < |d| ==>
              (n in d[k].attrs <==> n in doc[k].attrs && !Dropped(n)) &&
              (n in d[k].attrs ==> d[k].attrs[n] == doc[k].attrs[n]) && d[k].tag == doc[k].tag
  {
  }

  /** Scrubbing twice is scrubbing once. */
  lemma ScrubIdempotent(doc: Doc)
    ensures Seqs.Map(Scrub, Seqs.Map(Scrub, doc)) == Seqs.Map(Scrub, doc)
  {
    var d := Seqs.Map(Scrub, doc);
    forall k | 0 <= k < |d| ensures Scrub(d[k]) == d[k] {
      assert Scrub(d[k]).attrs == d[k].attrs;
    }
  }

  /** Two inputs whose parsed elements agree once `class`, `id` and `style` are removed give
      the same Markdown. An element here is only its tag and attributes, so the statement is
      about a renderer that sees nothing else of the document. */
  lemma MarkdownIgnoresStyling(h1: String, h2: String, parse: String -> Doc, render: Doc -> String,
                               turndown: String -> String)
    requires h1 != [] && h2 != []
    requires Seqs.Map(Scrub, parse(h1)) == Seqs.Map(Scrub, parse(h2))
    ensures ConvertHtmlToMarkdown(Some(h1), parse, render, turndown) ==
            ConvertHtmlToMarkdown(Some(h2), parse, render, turndown)
  {
  }

  // ---------------------------------------------------------------- images

  /** The object pushed for one image; `src`, `width` and `height` stay `undefined` (`None`)
      when the attribute is missing. */
  datatype Image = Image(src: Option<String>, alt: String, title: String,
                         width: Option<String>, height: Option<String>)

  /** `$img.attr(name)`. */
  function AttrOf(e: Element, name: String): (r: Option<String>)
    ensures r.Some? <==> name in e.attrs
    ensures r.Some? ==> r.value == e.attrs[name]
  {
    if name in e.attrs then Some(e.attrs[name]) else None
  }

  predicate IsImg(e: Element) {
    e.tag == "img"
  }

  /** The object for one `img`: `alt` and `title` are `attr(...) || ''`. */
  function ImageOf(e: Element): Image {
    Image(AttrOf(e, "src"), Attr(e, "alt"), Attr(e, "title"), AttrOf(e, "width"), AttrOf(e, "height"))
  }

  /** `alt` and `title` are the attribute when it is there and not empty, and `''` otherwise;
      an attribute that is there but empty is falsy to `||` and gives `''` as well. */
  lemma ImageDefaults(e: Element)
    ensures "alt" in e.attrs && e.attrs["alt"] != [] ==> ImageOf(e).alt == e.attrs["alt"]
    ensures ("alt" in e.attrs ==> e.attrs["alt"] == []) ==> ImageOf(e).alt == []
    ensures "title" in e.attrs && e.attrs["title"] != [] ==> ImageOf(e).title == e.attrs["title"]
    ensures ("title" in e.attrs ==> e.attrs["title"] == []) ==> ImageOf(e).title == []
  {
  }

  /** The images of a document: one object per `img` element, in document order. */
  function Images(doc: Doc): (r: seq<Image>)
    ensures |r| == |Seqs.Filter(IsImg, doc)|
    ensures forall k :: 0 <= k < |r| ==> r[k] == ImageOf(Seqs.Filter(IsImg, doc)[k])
  {
    Seqs.Map(ImageOf, Seqs.Filter(IsImg, doc))
  }

  /** One more element adds its image when it is an `img`, and nothing otherwise. */
  lemma ImagesSnoc(doc: Doc, e: Element)
    ensures Images(doc + [e]) == Images(doc) + (if IsImg(e) then [ImageOf(e)] else [])
  {
    Seqs.FilterAppend(IsImg, doc, e);
    if IsImg(e) {
      Seqs.MapAppend(ImageOf, Seqs.Filter(IsImg, doc), e);
    } else {
      assert Seqs.Filter(IsImg, doc) + [] == Seqs.Filter(IsImg, doc);
    }
  }

  /** The images of two documents one after the other are the images of the first, then
      those of the second. */
  lemma {:induction false} ImagesAppend(a: Doc, b: Doc)
    ensures Images(a + b) == Images(a) + Images(b)
    decreases |b|
  {
    if b == [] {
      assert a + b == a;
    } else {
      var b', e := b[..|b| - 1], b[|b| - 1];
      assert b == b' + [e];
      assert a + b == (a + b') + [e];
      ImagesAppend(a, b');
      ImagesSnoc(a + b', e);
      ImagesSnoc(b', e);
    }
  }

  /** A document without `img` elements has no images. */
  lemma {:induction false} NoImgNoImages(doc: Doc)
    requires forall k :: 0 <= k < |doc| ==> !IsImg(doc[k])
    ensures Images(doc) == []
    decreases |doc|
  {
    if doc != [] {
      var d', e := doc[..|doc| - 1], doc[|doc| - 1];
      assert doc == d' + [e];
      NoImgNoImages(d');
      ImagesSnoc(d', e);
    }
  }

  /** `extractImages`: `[]` for falsy input; otherwise the `.each` loop over `$('img')`
      pushes one object per image. */
  method ExtractImages(html: JsString, parse: String -> Doc) returns (images: seq<Image>)
    ensures Falsy(html) ==> images == []
    ensures !Falsy(html) ==> images == Images(parse(html.value))
  {
    if Falsy(html) {
      return [];
    }
    var doc := parse(html.value);
    images := [];
    var i := 0;
    while i < |doc|
      invariant 0 <= i <= |doc|
      invariant images == Images(doc[..i])
    {
      ImagesSnoc(doc[..i], doc[i]);
      assert doc[..i + 1] == doc[..i] + [doc[i]];
      if IsImg(doc[i]) {
        images := images + [ImageOf(doc[i])];
      }
      i := i + 1;
    }
    assert doc[..i] == doc;
  }

  // ---------------------------------------------------------------- frontmatter

  /** `wpPost.key`: `undefined` (`None`) when the record has no such property. */
  function Prop(post: Converters.Record, key: String): (r: Option<Value>)
    ensures r.Some? <==> key in post
    ensures r.Some? ==> r.value == post[key]
  {
    if key in post then Some(post[key]) else None
  }

  /** The object `convertPostToFrontmatter` returns. */
  datatype PostFrontmatter = PostFrontmatter(title: Value, description: Value, pubDate: Value,
                                             author: Value, tags: Value, draft: bool)

  /** `convertPostToFrontmatter`: each field is the post's own value when that is truthy and
      the default otherwise; `now` is `new Date().toISOString()`. */
  function ConvertPostToFrontmatter(post: Converters.Record, now: String): (r: PostFrontmatter)
    ensures r.draft <==> Prop(post, "status") != Some(Str("publish"))
    ensures r.pubDate == (if JsTruthy(Prop(post, "date")) then post["date"] else Str(now))
    ensures r.title == (if JsTruthy(Prop(post, "title")) then post["title"] else Str(""))
    ensures r.description == (if JsTruthy(Prop(post, "excerpt")) then post["excerpt"] else Str(""))
    ensures r.author == (if JsTruthy(Prop(post, "author")) then post["author"] else Str(""))
    ensures r.tags == (if JsTruthy(Prop(post, "categories")) then post["categories"] else List([]))
  {
    PostFrontmatter(
      JsOr(Prop(post, "title"), Str("")),
      JsOr(Prop(post, "excerpt"), Str("")),
      JsOr(Prop(post, "date"), Str(now)),
      JsOr(Prop(post, "author"), Str("")),
      JsOr(Prop(post, "categories"), List([])),
      Prop(post, "status") != Some(Str("publish")))
  }

  /** The JavaScript converter and the Python one agree on which posts are drafts. */
  lemma DraftAgrees(post: Converters.Record, now: String)
    ensures ConvertPostToFrontmatter(post, now).draft <==> WpConverter.Draft(post).b
  {
  }

  /** Only a post whose `status` is the string `publish` is published: a missing status, or
      any other value, makes a draft. */
  lemma PublishedOnlyByStatus(post: Converters.Record, now: String)
    ensures !ConvertPostToFrontmatter(post, now).draft <==> "status" in post && post["status"] == Str("publish")
  {
  }

  /** The clock is read only when the post has no truthy date. */
  lemma ClockOnlyWithoutDate(post: Converters.Record, now: String, later: String)
    requires JsTruthy(Prop(post, "date"))
    ensures ConvertPostToFrontmatter(post, now) == ConvertPostToFrontmatter(post, later)
  {
  }

  /** A list of categories is kept even when empty (an array is truthy); a missing or `null`
      one becomes `[]`. */
  lemma TagsAlwaysList(post: Converters.Record, now: String)
    requires "categories" in post ==> post["categories"].List? || post["categories"].Null?
    ensures ConvertPostToFrontmatter(post, now).tags.List?
    ensures "categories" in post && post["categories"].List? ==>
              ConvertPostToFrontmatter(post, now).tags == post["categories"]
  {
  }
}
