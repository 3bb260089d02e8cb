/** The server's `contentType(file)`: the MIME type announced for a served
    file, chosen from its lower-cased extension alone. */
module ContentTypes {
  import opened Strings
  import opened NodePath

  const Html := "text/html; charset=UTF-8"
  const OctetStream := "application/octet-stream"

  /** The table of known extensions, as a map. */
  const MimeTable: map<string, string> := map[
    ".html" := Html,
    ".js" := "application/javascript; charset=UTF-8",
    ".css" := "text/css; charset=UTF-8",
    ".json" := "application/json",
    ".svg" := "image/svg+xml",
    ".png" := "image/png",
    ".jpg" := "image/jpeg",
    ".jpeg" := "image/jpeg",
    ".webp" := "image/webp",
    ".wasm" := "application/wasm"
  ]

  /** The extension `contentType` switches on. */
  function LowerExt(file: string): string {
    ToLower(Extname(file))
  }

  /** The switch statement: a known extension gets its table entry and every
      other extension, the empty one included, gets the octet-stream default. */
  function MimeOf(ext: string): (mime: string)
    ensures ext in MimeTable ==> mime == MimeTable[ext]
    ensures ext !in MimeTable ==> mime == OctetStream
    ensures mime == OctetStream <==> ext !in MimeTable
  {
    match ext
    case ".html" => Html
    case ".js" => "application/javascript; charset=UTF-8"
    case ".css" => "text/css; charset=UTF-8"
    case ".json" => "application/json"
    case ".svg" => "image/svg+xml"
    case ".png" => "image/png"
    case ".jpg" => "image/jpeg"
    case ".jpeg" => "image/jpeg"
    case ".webp" => "image/webp"
    case ".wasm" => "application/wasm"
    case _ => OctetStream
  }

  /** `contentType(file)`: the MIME type of the lower-cased extension. */
  function ContentType(file: string): string {
    MimeOf(LowerExt(file))
  }

  /** The classification ignores the case of the file name: `f.PNG` and
      `f.png` are served alike. */
  lemma {:induction false} ContentTypeIgnoresCase(file: string)
    ensures ContentType(ToLower(file)) == ContentType(file)
  {
    ExtnameLower(file);
    ToLowerIdempotent(Extname(file));
  }

  lemma {:induction false} ContentTypeSameLower(f: string, g: string)
    requires ToLower(f) == ToLower(g)
    ensures ContentType(f) == ContentType(g)
  {
    ContentTypeIgnoresCase(f);
    ContentTypeIgnoresCase(g);
  }

  /** The type of a single path part is decided by that part's extension. */
  lemma {:induction false} ContentTypeOfPart(part: string)
    requires |part| > 0 && '/' !in part
    ensures ContentType(part) == MimeOf(ToLower(PartExtension(part)))
  {
    ExtnameOfPart(part);
  }

  lemma EmptyExtensionIsOctetStream()
    ensures MimeOf(ToLower("")) == OctetStream
  {
    assert ToLower("") == "";
  }

  lemma {:induction false} ContentTypeOfName(stem: string, ext: string)
    requires |stem| > 0 && |ext| >= 2 && ext[0] == '.'
    requires '/' !in stem && '/' !in ext && '.' !in ext[1..]
    ensures ContentType(stem + ext) == MimeOf(ToLower(ext))
  {
    assert '/' !in stem + ext;
    ContentTypeOfPart(stem + ext);
    PartExtensionOfName(stem, ext);
  }

  /** `.jpg` and `.jpeg` are both JPEG images. */
  lemma JpegAliases()
    ensures MimeOf(".jpg") == MimeOf(".jpeg") == "image/jpeg"
  {
  }

  /** A name without a dot, or whose only dot leads it (a dot-file such as
      `.env`), has no extension and gets the default. */
  lemma {:induction false} NoExtensionIsOctetStream(name: string)
    requires |name| > 0 && '/' !in name && '.' !in name[1..]
    ensures ContentType(name) == OctetStream
  {
    ContentTypeOfPart(name);
    PartExtensionWithoutDot(name);
    EmptyExtensionIsOctetStream();
  }

  /** `contentType` of an absolute path whose last segment is `<stem><ext>`
      is decided by `ext` alone: `/srv/dist/a/logo.PNG` is `image/png`. */
  lemma {:induction false} ContentTypeOfPath(p: Path, stem: string, ext: string)
    requires |stem| > 0 && |ext| >= 2 && ext[0] == '.'
    requires IsSegment(stem + ext) && '.' !in ext[1..]
    ensures ContentType(PathString(p + [stem + ext])) == MimeOf(ToLower(ext))
  {
    ExtnameOfPath(p, stem + ext);
    PartExtensionOfName(stem, ext);
  }

  /** An absolute path whose last segment has no dot after its first
      character (`/srv/dist/LICENSE`, `/srv/dist/.env`) gets the default. */
  lemma {:induction false} NoExtensionPathIsOctetStream(p: Path, name: string)
    requires IsSegment(name) && '.' !in name[1..]
    ensures ContentType(PathString(p + [name])) == OctetStream
  {
    ExtnameOfPath(p, name);
    PartExtensionWithoutDot(name);
    EmptyExtensionIsOctetStream();
  }

  /** A last segment that ends in its only-trailing dot, such as
      `/srv/dist/README.`, has the extension `.`, which is not in the table. */
  lemma {:induction false} TrailingDotPathIsOctetStream(p: Path, stem: string)
    requires IsSegment(stem + ".")
    ensures ContentType(PathString(p + [stem + "."])) == OctetStream
  {
    var name := stem + ".";
    LastIndexOfUnique(name, '.', |stem|);
    PartExtensionAt(name, |stem|);
    ExtnameOfPath(p, name);
    LoneDotIsOctetStream();
  }

  lemma LoneDotIsOctetStream()
    ensures MimeOf(ToLower(".")) == OctetStream
  {
    assert ToLower(".") == ".";
  }

  lemma IndexFileExtension()
    ensures PartExtension("index.html") == ".html"
  {
    var name := "index.html";
    assert name[6..] == "html";
    LastIndexOfUnique(name, '.', 5);
    PartExtensionAt(name, 5);
    assert name[5..] == ".html";
  }

  lemma HtmlIsHtml()
    ensures MimeOf(ToLower(".html")) == Html
  {
    assert ToLower(".html") == ".html";
  }

  /** Every file whose last segment is `index.html` is announced as HTML. */
  lemma {:induction false} IndexIsHtml(p: Path)
    ensures ContentType(PathString(p + ["index.html"])) == Html
  {
    assert IsSegment("index.html");
    ExtnameOfPath(p, "index.html");
    IndexFileExtension();
    HtmlIsHtml();
  }
}
