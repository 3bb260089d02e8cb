# Static SPA server — a Dafny model of its request handler

`server.js` serves the built files of a single-page application from a
`dist` directory. Each request goes through one handler:

- the exact URL `/api/env` answers with a JSON object. The object holds
  `APP_NAME` when that variable is non-empty, plus every environment
  variable whose name starts with `PUBLIC_`;
- any other URL is decoded to a pathname, and its leading slashes are
  stripped. The result is joined onto `dist` with `path.join`. A pathname
  ending in `/` names that directory's `index.html`;
- an existing regular file at that target is sent with a content type
  taken from its lower-cased extension. If there is none, `dist/index.html`
  is sent as HTML whenever it exists (the SPA fallback). If that is missing
  too, the answer is a plain-text 404;
- any exception inside the handler becomes a plain-text 500 that contains
  only `Internal Server Error`.

The model is functional: immutable datatypes and pure functions, plus
lemmas about them.

| module | file | models |
|---|---|---|
| `Outcomes` | outcomes.dfy | `Option`, and `Result` with its one failure, a file read that throws |
| `Strings` | strings.dfy | `startsWith`, `endsWith`, `toLowerCase`, `lastIndexOf`, `split`/`join` |
| `NodePath` | node_path.dfy | POSIX `path.join` (split, then normalise `.`, `..` and empty pieces), the string form of a path, `path.extname` |
| `ContentTypes` | content_types.dfy | `contentType(file)` |
| `EnvEndpoint` | env_endpoint.dfy | the `/api/env` allow-list |
| `AssetTarget` | asset_target.dfy | stripping leading slashes and choosing the target path |
| `Server` | server.dfy | the abstract filesystem, `Response`, the fallback chain, the catch-all |

Modelling choices:

- An absolute path is the sequence of its segments (`/srv/dist` is
  `["srv", "dist"]`). The asset directory `DIST` is a parameter `dist`.
- The disk is a `FileSystem` value with three parts: the set of paths that
  exist, the set of those that are regular files, and a map from path to
  bytes. `fs.existsSync(p) && fs.statSync(p).isFile()` is `IsRegularFile`.
  `fs.readFileSync(p)` succeeds for any existing entry that has contents.
  A directory has none, so reading it fails, as it does in Node. A
  character device or a FIFO is present, not regular, and may have contents,
  so it can be read. This matters for the fallback, which checks only that
  `index.html` exists (`FallsBackToIndex` needs it readable, not regular).
- The environment is a `map<string, string>`. JavaScript truthiness of
  `process.env.APP_NAME` means the key is present and its value is not `""`.
- `new URL(req.url, …)` and `decodeURIComponent` run outside the model. A
  `Request` carries the raw `url`, which is compared with `/api/env`, and
  the decoded `pathname`. The pathname is `None` when either call throws.
- Nothing keeps the target inside `dist`. A stricter design would normalise
  the path, check that it stays under the root, and answer 404 when it does
  not. `server.js` has no such check, and the model follows `server.js`.
  `ParentSegmentEscapes` and `TraversalServesSibling` show that a decoded
  pathname `/../x` reaches a sibling of `dist`, and that such a file is
  served. URL parsing removes literal `..` segments, but an encoded `%2F`
  is not a separator at that stage. So a URL such as `/..%2Fx` decodes to
  `/../x` only after parsing. Containment is proved only for pathnames with
  no `..` segment (`TargetContainedWithoutParent`).

## Model

| member | source | states |
|---|---|---|
| `ContentTypes.MimeOf` | server.js:21-33 | each of the ten listed extensions maps to its MIME type; every other extension, the empty one included, gets `application/octet-stream`, and that default occurs exactly for extensions outside the table |
| `ContentTypes.ContentTypeIgnoresCase` | server.js:20 | lower-casing a file name does not change its content type, so `f.PNG` and `f.png` are served alike |
| `ContentTypes.ContentTypeSameLower` | server.js:19-20 | two names that agree after lower-casing get the same content type |
| `ContentTypes.JpegAliases` | server.js:28-29 | `.jpg` and `.jpeg` both give `image/jpeg` |
| `ContentTypes.NoExtensionIsOctetStream` | server.js:20-32 | a bare name with no dot, or a dot-file such as `.env`, has no extension and gets the default type |
| `ContentTypes.ContentTypeOfName` | server.js:19-20 | the type of a bare name `<stem><ext>` is decided by `ext` alone, after lower-casing |
| `ContentTypes.ContentTypeOfPath` | server.js:19-33 | the type of an absolute path whose last segment is `<stem><ext>`, with `ext` a dot and at least one other character, is decided by `ext` alone, after lower-casing |
| `ContentTypes.NoExtensionPathIsOctetStream` | server.js:19-33 | an absolute path whose last segment has no dot after its first character, such as `/srv/dist/.env`, gets the default type |
| `ContentTypes.TrailingDotPathIsOctetStream` | server.js:19-33 | an absolute path whose last segment ends in a dot, such as `/srv/dist/README.`, has the extension `.` and gets the default type |
| `ContentTypes.IndexIsHtml` | server.js:22 | any path whose last segment is `index.html` is typed `text/html; charset=UTF-8` |
| `NodePath.Extname` | server.js:20 | the extension is empty exactly when the last part (trailing slashes dropped) is empty, has no `.` after its first character, or is `..`; otherwise it is a `.` followed by no `/` and no further `.`, and it ends that last part |
| `NodePath.PathString` | server.js:54-58 | the string `path.join` returns starts with `/`, and splitting the rest at `/` gives back the segments of a non-root path |
| `NodePath.JoinPath` | server.js:54-58 | `path.join` onto a normal directory gives a normal path, no longer than the directory plus the pieces of its arguments |
| `NodePath.ExtnameLower` | server.js:20 | taking the extension commutes with lower-casing |
| `NodePath.ExtnameOfPath` | server.js:67 | the extension of a printed path is that of its last segment |
| `NodePath.Resolve` | server.js:54 | normalising pieces onto a normal directory yields a normal path no longer than its inputs |
| `NodePath.ResolveAppend` | server.js:58 | normalising pieces in two batches equals normalising them at once |
| `NodePath.ResolveNormalAppends` | server.js:54 | joining pieces that are already normal segments appends them unchanged |
| `NodePath.ResolveStaysBelow` | server.js:54 | without a `..` piece, the result keeps the directory as its prefix |
| `NodePath.JoinPathAppend` | server.js:58 | `path.join(DIST, rel, 'index.html')` equals joining `index.html` onto `path.join(DIST, rel)` |
| `Strings.JoinSplit` | server.js:54 | joining the pieces of a split gives back the original string |
| `Strings.SplitJoin` | server.js:54 | splitting a join of separator-free pieces gives back the pieces |
| `Strings.EndsWithConcat` | server.js:57 | `urlPath.endsWith(s)` holds iff `urlPath` is some string followed by `s` |
| `Strings.StartsWithConcat` | server.js:43 | `k.startsWith(p)` holds iff `k` is `p` followed by some string, compared exactly, case included |
| `Strings.LastIndexOf` | server.js:20 | the result is the last position holding the character, or none when it does not occur |
| `Strings.LastIndexOfLower` | server.js:20 | lower-casing does not move the last `.` or `/` |
| `EnvEndpoint.PublicEnv` | server.js:40-44 | a key is exposed iff it starts with `PUBLIC_`, or it is `APP_NAME` with a non-empty value; every exposed value equals the environment's |
| `EnvEndpoint.BuildEnvObject` | server.js:40-44 | the loop that adds `APP_NAME` and then every `PUBLIC_` key builds exactly the allow-listed map |
| `EnvEndpoint.OnlyAllowedNames` | server.js:41-43 | no name other than `APP_NAME` or a `PUBLIC_` name is ever exposed |
| `EnvEndpoint.PrefixIsCaseSensitive` | server.js:43 | `public_…` and `Public_…` names are never exposed |
| `EnvEndpoint.AppNameNeedsValue` | server.js:41 | `APP_NAME` is exposed iff its value is non-empty |
| `EnvEndpoint.HiddenVariablesIrrelevant` | server.js:40-44 | changing a variable outside the allow-list does not change the response |
| `AssetTarget.StripLeadingSlashes` | server.js:53 | the result is a suffix of the input with no leading `/`, and only `/` characters were removed |
| `AssetTarget.StripLeadingSlashesIdempotent` | server.js:53 | stripping twice equals stripping once |
| `AssetTarget.IsDirectoryRequest` | server.js:57 | a pathname is directory-style iff its last character is `/`; the separate test for `/` adds nothing |
| `AssetTarget.TargetPath` | server.js:54-59 | the target of a normal `dist` is itself normal |
| `AssetTarget.TargetShape` | server.js:54-59 | a pathname that is `/` or ends in `/` targets `join(dist, rel)` followed by `index.html`; any other targets `join(dist, rel)` |
| `AssetTarget.DirectoryTargetIsIndex` | server.js:57-58 | every directory-style request probes a file named `index.html` |
| `AssetTarget.RootTarget` | server.js:57-58 | the pathname `/` probes `dist/index.html` |
| `AssetTarget.JoinIgnoresLeadingSlashes` | server.js:52-54 | `path.join` gives the same target with or without the stripped slashes |
| `AssetTarget.TargetContainedWithoutParent` | server.js:54 | a pathname with no `..` segment resolves under `dist` |
| `AssetTarget.ParentSegmentEscapes` | server.js:54 | the pathname `/../x` resolves to a sibling of `dist`, outside it |
| `Server.IndexPath` | server.js:73 | the fallback document is `dist` followed by `index.html` |
| `Server.ServeAsset` | server.js:65-83 | resolution ends in the 404 response, or in a 200 whose body is file bytes, or in a read failure of the target or of `dist/index.html` |
| `Server.Handle` | server.js:37-88 | every request gets a 200, 404 or 500; any 404 is exactly `text/plain` `Not Found`; any 500 is exactly `text/plain` `Internal Server Error`; the body is JSON iff the URL is exactly `/api/env` |
| `Server.EnvRouteExposesAllowList` | server.js:39-47 | `/api/env` answers 200 `application/json` with exactly the allowed variables and their values |
| `Server.EnvRouteIsExact` | server.js:39 | `/api/env?x=1` and `/api/env/` do not reach the endpoint |
| `Server.EnvRouteIgnoresDisk` | server.js:39-47 | the endpoint's answer depends on neither the disk nor the pathname |
| `Server.AssetsIgnoreEnv` | server.js:50-83 | asset responses do not depend on the environment |
| `Server.ServesExistingFile` | server.js:65-69 | a readable regular file at the target is answered with 200, `contentType(target)` and exactly its bytes |
| `Server.FallsBackToIndex` | server.js:72-78 | when the target is not a regular file and `dist/index.html` is readable, the answer is 200 `text/html; charset=UTF-8` with the index bytes |
| `Server.NotFoundIff` | server.js:81-83 | a 404 happens iff the target is not a regular file and `dist/index.html` does not exist |
| `Server.InternalErrorIff` | server.js:51-88 | a 500 happens iff decoding threw or the file chosen to be sent cannot be read |
| `Server.IndexDirectoryFails` | server.js:74-75 | a directory named `index.html` in `dist` (an entry without contents) turns every unmatched route into a 500, because the fallback checks existence only |
| `Server.ServedBytesProvenance` | server.js:66-77 | every body of file bytes is the regular target's contents, or the fallback document's when the target is not a regular file |
| `Server.DirectoryRequestsServeHtml` | server.js:57-77 | a successful directory-style request is always answered as HTML |
| `Server.ReadableIndexNeverNotFound` | server.js:65-78 | with a readable fallback document, every decodable request whose chosen file is readable gets a 200 |
| `Server.TraversalServesSibling` | server.js:54-69 | a readable regular file next to `dist` is served for the pathname `/../<name>` |

## Left out

- `src/app/app.ts`: an Angular component that holds only a title signal. It has no behaviour to model.
- The HTTP server itself is not modelled: `http.createServer`, `listen`, and the `PORT` default of 4200 (server.js:16, 36, 91-93). Headers other than `Content-Type` are also out.
- Loading `.env` through `dotenv` (server.js:9-14) is not modelled. The environment is an input.
- Console logging (server.js:62, 85, 92) is not modelled. It has no effect on the response.
- `new URL(...)` and `decodeURIComponent` (server.js:51) are not re-implemented. Their outcome is the `pathname` field of a `Request`, and `None` means one of them threw.
- `JSON.stringify` (server.js:46) is not modelled. The body carries the object as a map, so key order and string escaping are out of scope.
- The real `fs` calls are not modelled (server.js:65-66, 74-75). The abstract `FileSystem` does not model symbolic links, a change on disk between `existsSync`, `statSync` and `readFileSync`, or Node refusing a path that contains a NUL character.
- `path.join` is modelled for POSIX only. Windows separators and drive letters are out. `DIST` (server.js:17) is a parameter assumed to be already normalised.
- `Strings.ToLower`: lowers ASCII letters only, weaker than JavaScript's full Unicode `toLowerCase`. For this classifier the difference does not matter. Only two non-ASCII characters lower-case to something containing an ASCII letter: the Kelvin sign (to `k`) and capital I with dot above (to `i` plus a combining dot). No extension in the table contains `k` or `i`, so no non-ASCII name can be classified differently.
- `ContentTypes.ContentType`: carries no contract of its own. Its behaviour is stated through `MimeOf`, `ContentTypeIgnoresCase`, `ContentTypeOfName`, `NoExtensionIsOctetStream`, `ContentTypeOfPath`, `NoExtensionPathIsOctetStream`, `TrailingDotPathIsOctetStream` and `IndexIsHtml`.
- Idempotence of repeated requests is not stated as a lemma. It holds because every member is a pure function.
