# quick-hub request logic, modelled in Dafny

quick-hub is a LAN file-share server: a browser lists a shared working directory, downloads files (whole or as byte ranges), checks whether an upload may go ahead, uploads files and keeps a small text pad. The repository holds several near-duplicate servers, and this project models the request-decision logic of each:

- **quickhub** (Kotlin, NanoHTTPD):
  - `FileController`: listing, check, upload with overwrite policy and listener, download with an 8 MiB range window;
  - `FileUtils`: `normalizePath` and `trimFromBeginning`;
  - `TextController`;
  - `Loggable.shouldIgnoreMessage`.
- **temphub** (the older Kotlin server):
  - `FileController`: listing, check, upload that never overwrites, download without ranges;
  - `FileUtils`: plain trim and integer `formatFileSize`;
  - `HttpServiceNano`: content-type fix-up, routing and the static MIME table.
- **backend-node** (Express):
  - `fileController`: sorted listing, download with a 2 MiB range window, check;
  - `utils`: `trimFromBeginning` and `jsonResponse`;
  - the `validateFields` middleware.
- **src/** (the older Node server): `fileController` (unsorted listing, download, check), `utils.trimFromBeginning`, `textController` and `validateFields`.
- **static/js/utils.js**: the web client's `escapeFilename`.
- **android `Log`**: the 300-line in-memory log buffer and its level routing.

The filesystem is a map from absolute path to a directory (its entry names, in enumeration order) or a file (its bytes) (`Files`). Handlers that only read it are functions. The upload handlers change one mutable `Disk` in place, and a registered `FileReceivedListener` records the files it was told about. JavaScript values of a parsed JSON body are `Express.JsValue`, with JavaScript truthiness. A handler either answers or throws (`Http.Outcome`), so the paths where Node's `path.join`, `lstatSync` or `decodeURIComponent` throw are modelled rather than excluded.

Each stateful piece is a class whose methods are proved against a specification function:

- Express's `res` and `next`;
- the text pads' history;
- the Android log buffer;
- NanoHTTPD's session headers.

Loops of the source are `while`/`for` loops with invariants:

- the `forEach` that fills a listing;
- the `normalizePath` strip loop;
- the `readFully` buffer fill;
- the validator loops.

Some behaviours differ between the variants, or from the range rules of RFC 7233, and the model keeps them as the code has them:

- Only backend-node sorts listings, directories first. Both Kotlin servers and `src/` keep the enumeration order.
- No variant confines client paths to the working directory: client text is joined straight onto it.
- Section 2.1 of RFC 7233 replaces a last-byte position at or past the end of the file by the last byte. Take `bytes=9999-20000` on a 10000-byte file:
  - quickhub answers 416 for any explicit end at or past the end of the file that lies within 8 MiB of the start (`QuickhubFileController.RangePastEndRefused`). An end further out is first cut to the 8 MiB chunk, and that window is served when it fits in the file.
  - backend-node answers 206 with `bytes 9999-20000/10000` and a Content-Length larger than what the stream sends (`NodeFileController.RangeEndNotClamped`).
- A suffix range `bytes=-N` means the last N bytes (section 2.1 of RFC 7233):
  - quickhub reads it as bytes 0 to N (`QuickhubFileController.RangeSuffixFromStart`);
  - backend-node computes NaN for start, end and length, and `createReadStream` throws before anything is sent (`NodeFileController.RangeSuffixIsNaN`).
- Section 4.4 of RFC 7233 answers 416 to a range that lies outside the file. backend-node never answers 416:
  - `bytes=<s>-` past the end makes the handler throw (`NodeFileController.RangeStartPastEnd`);
  - `bytes=<s>-<e>` past the end is a 206 with no bytes (`NodeFileController.RangePastEndEmpty`).
- backend-node's check endpoint answers its refusals with HTTP 400, because `jsonResponse` maps every non-"success" status to 400.
- quickhub answers an upload with only "Files uploaded", or, for a file of 1024^5 bytes or more, a 500 from `formatFileSize`'s unit index running past its five units, with the file kept (`QuickhubFileController.AddHugeFileRefused`); temphub answers the stored entry with its size (`TemphubFileController.AddReportsStored`).

## Model

| member | source | states |
|---|---|---|
| Text.RemovePrefix | backend-kotlin/src/main/kotlin/com/github/aar0u/temphub/util/FileUtils.kt:8 | Kotlin `removePrefix`: when `s` starts with the prefix, `s` is the prefix followed by the result; otherwise the result is `s` |
| Text.SubstringAfter | backend-kotlin/src/main/kotlin/com/github/aar0u/quickhub/controller/FileController.kt:251 | `substringAfter`: without the delimiter the whole text; with it, the text is some prefix, the delimiter, then the result |
| Text.IndexOf | backend-kotlin/src/main/kotlin/com/github/aar0u/quickhub/controller/FileController.kt:251 | the first occurrence: the piece matches there, no earlier position starts one, and None exactly when the text does not contain it |
| Text.ReplaceFirstText | backend-node/src/controllers/fileController.js:158 | `replace` without the `g` flag: unchanged when the pattern is absent, otherwise only the first occurrence is replaced |
| Text.ReplaceFirstAtStart | backend-node/src/controllers/fileController.js:158 | a text starting with the pattern has exactly that leading occurrence replaced |
| Text.Split | backend-kotlin/src/main/kotlin/com/github/aar0u/quickhub/controller/FileController.kt:251 | `split("-")`: at least one piece, and no piece contains the separator |
| Text.SplitJoin | backend-kotlin/src/main/kotlin/com/github/aar0u/quickhub/controller/FileController.kt:251 | joining the pieces with the separator gives back the text: nothing is lost by splitting |
| Text.ReplaceAllConcat | static/js/utils.js:24-25 | a global one-character replacement distributes over concatenation |
| Text.ReplaceAllRemoves | static/js/utils.js:24-25 | replacing a character by text free of it leaves no occurrence behind |
| Text.ReplaceAllAbsent | static/js/utils.js:24-25 | replacing a character that does not occur changes nothing |
| Text.Lower | backend-node/src/controllers/fileController.js:39 | `toLowerCase` keeps the length and maps each character on its own |
| Text.LexLeTotal | backend-node/src/controllers/fileController.js:39 | the name order compares any two names |
| Text.LexLeAntisymmetric | backend-node/src/controllers/fileController.js:39 | two names ordered both ways are equal |
| Text.LexLeTransitive | backend-node/src/controllers/fileController.js:39 | the name order is transitive |
| Text.ContainsTransitive | backend-kotlin/src/main/kotlin/com/github/aar0u/quickhub/service/Loggable.kt:18 | a text containing `b` contains every piece of `b` |
| Text.Utf16Length | src/middlewares/validateFields.js:16 | JavaScript `length` counts UTF-16 code units: between one and two per character |
| Text.Utf16LengthBasic | src/middlewares/validateFields.js:16 | below U+10000 `length` is the number of characters |
| Numbers.NatToString | backend-kotlin/src/main/kotlin/com/github/aar0u/quickhub/controller/FileController.kt:277 | a number printed in a template: non-empty decimal digits, no leading zero, whose value is the number |
| Numbers.ParseLong | backend-kotlin/src/main/kotlin/com/github/aar0u/quickhub/controller/FileController.kt:252 | `toLongOrNull`: a parsed value lies in the 64-bit range and comes from an optional sign followed by digits |
| Numbers.ParseLongNatToString | backend-kotlin/src/main/kotlin/com/github/aar0u/quickhub/controller/FileController.kt:252 | every Long's decimal text parses back to it |
| Numbers.ParseLongNoMinus | backend-kotlin/src/main/kotlin/com/github/aar0u/quickhub/controller/FileController.kt:252 | a text without `-` never parses to a negative value |
| Numbers.Wrap64 | backend-kotlin/src/main/kotlin/com/github/aar0u/quickhub/controller/FileController.kt:256 | Long arithmetic wraps: the result is in range, equals the exact value when that is in range, and differs from it by a multiple of 2^64 |
| Numbers.WrapAboveMax | backend-kotlin/src/main/kotlin/com/github/aar0u/quickhub/controller/FileController.kt:256 | a sum just above `Long.MAX_VALUE` wraps to the sum minus 2^64 |
| Numbers.JsMin | backend-node/src/controllers/fileController.js:162 | `Math.min`: NaN exactly when an argument is NaN, otherwise the smaller argument |
| Numbers.JsParseInt | backend-node/src/controllers/fileController.js:159 | `parseInt(s, 10)` of a digit string is its value |
| PercentCoding.PercentDecode | backend-node/src/controllers/fileController.js:184 | `decodeURIComponent`: a text without `%` decodes to itself |
| PercentCoding.MalformedEscape | backend-node/src/controllers/fileController.js:184 | a lone `%`, or one not followed by two hexadecimal digits, throws |
| PercentCoding.DecodeCons | backend-node/src/controllers/fileController.js:184 | a plain character is kept and decoding goes on behind it |
| PercentCoding.DecodeEscape | backend-node/src/controllers/fileController.js:184 | a well-formed escape of an ASCII octet decodes to that character, followed by the decoding of the rest |
| Files.LastSlash | backend-kotlin/src/main/kotlin/com/github/aar0u/quickhub/controller/FileController.kt:38 | the index found holds `/` and no `/` follows it; None exactly when there is no `/` |
| Files.Parent | backend-kotlin/src/main/kotlin/com/github/aar0u/quickhub/controller/FileController.kt:38 | `File.parent` is shorter than the path, and is null only for a bare name or `/` |
| Files.JoinParts | backend-kotlin/src/main/kotlin/com/github/aar0u/quickhub/controller/FileController.kt:38 | a name joined below a directory has that directory as parent and that name as name |
| Files.AddName | backend-kotlin/src/main/kotlin/com/github/aar0u/quickhub/controller/FileController.kt:166 | a directory's entries after adding a name hold that name and every earlier one |
| Files.Mkdirs | backend-kotlin/src/main/kotlin/com/github/aar0u/quickhub/controller/FileController.kt:166 | `mkdirs` removes nothing. It changes nothing if the path exists. It creates only directories, and only the path and its ancestors. It changes no file and keeps every directory a directory |
| Files.WriteFile | backend-kotlin/src/main/kotlin/com/github/aar0u/quickhub/controller/FileController.kt:183 | a write adds exactly the target, holding the bytes; a failed write changes nothing |
| Files.CopyRefusesExisting | backend-kotlin/src/main/kotlin/com/github/aar0u/quickhub/controller/FileController.kt:183 | `copyTo` without overwrite on an existing target throws "already exists" and changes nothing |
| Files.CopyCopiesBytes | backend-kotlin/src/main/kotlin/com/github/aar0u/quickhub/controller/FileController.kt:183 | a successful copy leaves the source's bytes at the target. The source stays and no path is lost. Nothing changes that is neither the target nor above it |
| Files.FileReceivedListener.OnFileReceived | backend-kotlin/src/main/kotlin/com/github/aar0u/quickhub/controller/FileController.kt:196 | the listener records each file it is told about, in order |
| Http.Get | backend-kotlin/src/main/kotlin/com/github/aar0u/quickhub/controller/FileController.kt:29 | a JSON field lookup answers exactly for present keys, with their value |
| Listing.Visible | backend-kotlin/src/main/kotlin/com/github/aar0u/quickhub/controller/FileController.kt:62 | the filter keeps exactly the names that do not start with `.` and never adds any |
| Listing.VisibleConcat | backend-kotlin/src/main/kotlin/com/github/aar0u/quickhub/controller/FileController.kt:62 | the filter keeps order: filtering a concatenation concatenates the filtered parts |
| Listing.VisibleCounts | backend-node/src/controllers/fileController.js:31-32 | each non-hidden name is kept as often as it occurs, and hidden names never |
| Listing.MapEntries | backend-kotlin/src/main/kotlin/com/github/aar0u/quickhub/controller/FileController.kt:62-78 | one entry per name, in order, the i-th built from the i-th name |
| Listing.AppendEntries | backend-kotlin/src/main/kotlin/com/github/aar0u/quickhub/controller/FileController.kt:62-78 | the `forEach` loop leaves the earlier entries followed by one entry per name, in order |
| Listing.NamesOf | src/controllers/fileController.js:40 | the entries' names in order |
| Express.Field | backend-node/src/controllers/fileController.js:10 | `req.body[key]` is the value when present and undefined otherwise |
| Express.Response.Status | backend-node/src/utils.js:32 | `res.status` sets the code and leaves the record |
| Express.Response.Json | backend-node/src/utils.js:32 | `res.json` sets the record and leaves the code |
| Express.Next.Call | src/middlewares/validateFields.js:24 | `next()` is counted once per call |
| QuickhubFileUtils.CollapseSlashes | backend-kotlin/src/main/kotlin/com/github/aar0u/quickhub/util/FileUtils.kt:9 | `/+` to `/`: no double slash, never longer, same first character, and a text without double slashes is unchanged |
| QuickhubFileUtils.CollapseNoBackslash | backend-kotlin/src/main/kotlin/com/github/aar0u/quickhub/util/FileUtils.kt:6-9 | collapsing adds no backslash |
| QuickhubFileUtils.StripTrailing | backend-kotlin/src/main/kotlin/com/github/aar0u/quickhub/util/FileUtils.kt:12-14 | the strip loop's result is a prefix that no longer ends in `/` or `.`, unless it is `/` or `.`; a text that already qualifies is unchanged |
| QuickhubFileUtils.NormalizePath | backend-kotlin/src/main/kotlin/com/github/aar0u/quickhub/util/FileUtils.kt:4-17 | the method with its two rewrites and its loop computes the normalized form |
| QuickhubFileUtils.NormalizedClean | backend-kotlin/src/main/kotlin/com/github/aar0u/quickhub/util/FileUtils.kt:6-9 | the result holds no `\` and no `//` |
| QuickhubFileUtils.NormalizedEnding | backend-kotlin/src/main/kotlin/com/github/aar0u/quickhub/util/FileUtils.kt:12-14 | the result ends in neither `/` nor `.` unless it is exactly `/` or `.` |
| QuickhubFileUtils.NormalizedDropsTrailingDots | backend-kotlin/src/main/kotlin/com/github/aar0u/quickhub/util/FileUtils.kt:12-14 | trailing dots of a name go too: `a..` becomes `a` |
| QuickhubFileUtils.NormalizedIsPrefix | backend-kotlin/src/main/kotlin/com/github/aar0u/quickhub/util/FileUtils.kt:6-16 | after the separator rewrites only trailing characters go: the result is a prefix of the collapsed text |
| QuickhubFileUtils.NormalizedIdempotent | backend-kotlin/src/main/kotlin/com/github/aar0u/quickhub/util/FileUtils.kt:4-17 | normalizing twice is normalizing once |
| QuickhubFileUtils.TrimSelf | backend-kotlin/src/main/kotlin/com/github/aar0u/quickhub/util/FileUtils.kt:24-28 | a path trimmed by itself is empty |
| QuickhubFileUtils.TrimNoLeadingSeparator | backend-kotlin/src/main/kotlin/com/github/aar0u/quickhub/util/FileUtils.kt:27-28 | the result never starts with `/` and holds no backslash |
| QuickhubFileUtils.TrimTextual | backend-kotlin/src/main/kotlin/com/github/aar0u/quickhub/util/FileUtils.kt:27 | the prefix is removed as text, so a normalized continuation without leading `/` comes back whole (`/data/shared2` under `/data/shared` is `2`) |
| QuickhubFileUtils.NormalizedFixed | backend-kotlin/src/main/kotlin/com/github/aar0u/quickhub/util/FileUtils.kt:4-17 | a clean text with nothing to strip is its own normalized form |
| QuickhubFileUtils.JoinedNormalized | backend-kotlin/src/main/kotlin/com/github/aar0u/quickhub/util/FileUtils.kt:4-17 | the normalized form of a clean `root/rel` |
| QuickhubFileUtils.TrimJoined | backend-kotlin/src/main/kotlin/com/github/aar0u/quickhub/util/FileUtils.kt:24-28 | a normalized relative path joined below a normalized root trims back to itself |
| QuickhubFileController.HandleFileList | backend-kotlin/src/main/kotlin/com/github/aar0u/quickhub/controller/FileController.kt:24-96 | the method filling `fileInfos` answers what `FileList` describes |
| QuickhubFileController.ListParentFirst | backend-kotlin/src/main/kotlin/com/github/aar0u/quickhub/controller/FileController.kt:34-42 | `..` is first exactly when the listed path is not the working directory |
| QuickhubFileController.NoParentAmongEntries | backend-kotlin/src/main/kotlin/com/github/aar0u/quickhub/controller/FileController.kt:62 | no listed entry is called `..`, since hidden names are dropped |
| QuickhubFileController.ListMissing | backend-kotlin/src/main/kotlin/com/github/aar0u/quickhub/controller/FileController.kt:44-60 | a missing path answers 200 "failed" "Error listing files" with only the optional `..` |
| QuickhubFileController.ListEntries | backend-kotlin/src/main/kotlin/com/github/aar0u/quickhub/controller/FileController.kt:62-89 | an existing directory answers "success" with `..` (when due) and then the entries of the non-hidden names |
| QuickhubFileController.EntryShapes | backend-kotlin/src/main/kotlin/com/github/aar0u/quickhub/controller/FileController.kt:62-78 | one entry per non-hidden name in listing order. The type is directory exactly for directories. Directories carry no size; other entries carry their length |
| QuickhubFileController.ListRegularFile | backend-kotlin/src/main/kotlin/com/github/aar0u/quickhub/controller/FileController.kt:62 | listing a regular file is "success" with nothing but `..`, since `listFiles()` is null |
| QuickhubFileController.CheckDecision | backend-kotlin/src/main/kotlin/com/github/aar0u/quickhub/controller/FileController.kt:106-148 | "success" exactly for a non-blank name whose target is free or may be overwritten; 400 exactly for a blank name; a non-blank refusal says "File already exists" |
| QuickhubFileController.CheckOverwriteAdmits | backend-kotlin/src/main/kotlin/com/github/aar0u/quickhub/controller/FileController.kt:120 | with overwrite on, every non-blank name gets "File can be uploaded" |
| QuickhubFileController.HandleFileAdd | backend-kotlin/src/main/kotlin/com/github/aar0u/quickhub/controller/FileController.kt:151-221 | the disk becomes what `FileAdd` describes and the listener gets exactly the file `FileAdd` names; from 1024^5 bytes the file stays but the answer is the 500 of `formatFileSize` |
| QuickhubFileController.AddUnparsableThrows | backend-kotlin/src/main/kotlin/com/github/aar0u/quickhub/controller/FileController.kt:155-170 | unparsable metadata counts as an empty map: the working directory is made and the missing name makes the handler throw |
| QuickhubFileController.AddListenerOnSuccess | backend-kotlin/src/main/kotlin/com/github/aar0u/quickhub/controller/FileController.kt:181-209 | the listener hears of the target exactly when the answer is "Files uploaded"; a 500 says "Failed to handle file: " and tells no one, including the 500 for a file of 1024^5 bytes or more |
| QuickhubFileController.AddRefusesExisting | backend-kotlin/src/main/kotlin/com/github/aar0u/quickhub/controller/FileController.kt:183 | without overwrite an existing target is kept, the answer is a 500 and nobody is told |
| QuickhubFileController.AddStoresBytes | backend-kotlin/src/main/kotlin/com/github/aar0u/quickhub/controller/FileController.kt:182-196 | a successful upload leaves the temporary file's bytes at the target that was reported |
| QuickhubFileController.AddHugeFileRefused | backend-kotlin/src/main/kotlin/com/github/aar0u/quickhub/controller/FileController.kt:182-209 | a file of 1024^5 bytes or more is still copied to the target, but the answer is a 500 "Failed to handle file: Index …" and the listener hears nothing |
| QuickhubFileController.SizeFormatFails | backend-kotlin/src/main/kotlin/com/github/aar0u/quickhub/util/FileUtils.kt:31-38 | `formatFileSize` throws exactly when the size is at least 1024^5, where the unit index reaches 5 |
| QuickhubFileController.UnitIndexBounds | backend-kotlin/src/main/kotlin/com/github/aar0u/quickhub/util/FileUtils.kt:35 | the unit index `i` of a positive size is the one with 1024^i <= size < 1024^(i+1) |
| QuickhubFileController.AncestorShorter | backend-kotlin/src/main/kotlin/com/github/aar0u/quickhub/controller/FileController.kt:166 | an ancestor of a path is never longer than it |
| QuickhubFileController.CheckThenAdd | backend-kotlin/src/main/kotlin/com/github/aar0u/quickhub/controller/FileController.kt:119-183 | a target the check admitted is not refused as existing by the upload on the same filesystem |
| QuickhubFileController.MkdirsSparesLonger | backend-kotlin/src/main/kotlin/com/github/aar0u/quickhub/controller/FileController.kt:166 | `mkdirs` of a path never creates a longer path |
| QuickhubFileController.RangeParts | backend-kotlin/src/main/kotlin/com/github/aar0u/quickhub/controller/FileController.kt:251 | at least one piece, none containing `-` |
| QuickhubFileController.RangeWindowBounds | backend-kotlin/src/main/kotlin/com/github/aar0u/quickhub/controller/FileController.kt:251-267 | a served window lies inside the file and is at most 8 MiB long |
| QuickhubFileController.DigitsHaveNoMinus | backend-kotlin/src/main/kotlin/com/github/aar0u/quickhub/controller/FileController.kt:252 | a digit string holds no `-` |
| QuickhubFileController.RangePartsOf | backend-kotlin/src/main/kotlin/com/github/aar0u/quickhub/controller/FileController.kt:251 | `bytes=<a>-<b>` splits into exactly `a` and `b` |
| QuickhubFileController.RangeOfPieces | backend-kotlin/src/main/kotlin/com/github/aar0u/quickhub/controller/FileController.kt:251-257 | the start is `a` as a Long or 0. The end is `b` capped at the wrapped chunk end, or else the last byte capped the same way |
| QuickhubFileController.RangeServedAsAsked | backend-kotlin/src/main/kotlin/com/github/aar0u/quickhub/controller/FileController.kt:251-265 | a window of at most 8 MiB inside the file is served exactly as asked |
| QuickhubFileController.RangePastEndRefused | backend-kotlin/src/main/kotlin/com/github/aar0u/quickhub/controller/FileController.kt:257-265 | an explicit last byte at or past the end of the file, within 8 MiB of the start, gets 416 instead of being clamped |
| QuickhubFileController.RangeStartPastLength | backend-kotlin/src/main/kotlin/com/github/aar0u/quickhub/controller/FileController.kt:252-265 | `bytes=<s>-` with s at or past the reported length gets 416, whatever that length is |
| QuickhubFileController.PastEndArithmetic | backend-kotlin/src/main/kotlin/com/github/aar0u/quickhub/controller/FileController.kt:256-259 | the capped end is either at or past the file's end, or the wrapped chunk end lies before the start |
| QuickhubFileController.RangeOpenEnded | backend-kotlin/src/main/kotlin/com/github/aar0u/quickhub/controller/FileController.kt:255-257 | `bytes=<s>-` runs to the end of the file or of the 8 MiB chunk |
| QuickhubFileController.RangeSuffixFromStart | backend-kotlin/src/main/kotlin/com/github/aar0u/quickhub/controller/FileController.kt:252 | `bytes=-<n>` is read as bytes 0 to n |
| QuickhubFileController.ReadWindow | backend-kotlin/src/main/kotlin/com/github/aar0u/quickhub/controller/FileController.kt:267-272 | the buffer filled after `seek(start)` holds exactly the bytes from start to end |
| QuickhubFileController.HandleRangeRequest | backend-kotlin/src/main/kotlin/com/github/aar0u/quickhub/controller/FileController.kt:250-281 | 416 "Invalid range" for an unsatisfiable window. Otherwise 206 with exactly the window's bytes, `Content-Range: bytes s-e/len`, the length and `Accept-Ranges: bytes` |
| QuickhubFileController.HandleFileDownload | backend-kotlin/src/main/kotlin/com/github/aar0u/quickhub/controller/FileController.kt:223-281 | a missing file gets 404 "File not found". Without Range the whole file comes with 200; with Range one window as above. For a directory the reported length goes through the same 416 test; a window that passes throws, and so does a request without Range |
| QuickhubLoggable.ShouldIgnoreMessage | backend-kotlin/src/main/kotlin/com/github/aar0u/quickhub/service/Loggable.kt:14-19 | a null message is ignored; a present one is ignored exactly when it contains one of the two phrases |
| QuickhubLoggable.IgnoredPhrases | backend-kotlin/src/main/kotlin/com/github/aar0u/quickhub/service/Loggable.kt:14-18 | both phrases, and a null message, are ignored |
| QuickhubLoggable.EmptyMessageKept | backend-kotlin/src/main/kotlin/com/github/aar0u/quickhub/service/Loggable.kt:18 | other messages, the empty one included, are not ignored |
| QuickhubLoggable.IgnoreMonotone | backend-kotlin/src/main/kotlin/com/github/aar0u/quickhub/service/Loggable.kt:18 | a message containing an ignored message is ignored |
| QuickhubTextController.SavedText | backend-kotlin/src/main/kotlin/com/github/aar0u/quickhub/controller/TextController.kt:42 | the stored text is the body's `text`, or "" without one |
| QuickhubTextController.AddEntry | backend-kotlin/src/main/kotlin/com/github/aar0u/quickhub/controller/TextController.kt:51-56 | an add appends exactly one entry at the end and leaves every earlier entry as it was |
| QuickhubTextController.ReplayAppends | backend-kotlin/src/main/kotlin/com/github/aar0u/quickhub/controller/TextController.kt:51-56 | a run of adds keeps the old history and appends one entry per request, in order |
| QuickhubTextController.TextController.constructor | backend-kotlin/src/main/kotlin/com/github/aar0u/quickhub/controller/TextController.kt:14-20 | the history starts as one "Started" entry |
| QuickhubTextController.TextController.HandleTextList | backend-kotlin/src/main/kotlin/com/github/aar0u/quickhub/controller/TextController.kt:23-35 | "success" "Load successfully" with the whole history; nothing changes |
| QuickhubTextController.TextController.HandleTextAdd | backend-kotlin/src/main/kotlin/com/github/aar0u/quickhub/controller/TextController.kt:37-67 | the history gains the body's text at the end, and the answer is always "Saved successfully" |
| QuickhubTextController.FromStart | backend-kotlin/src/main/kotlin/com/github/aar0u/quickhub/controller/TextController.kt:14-56 | from the start the history is "Started" followed by every saved text in request order |
| TemphubFileUtils.TrimJoined | backend-kotlin/src/main/kotlin/com/github/aar0u/temphub/util/FileUtils.kt:8 | `p + "/" + r` trimmed by `p` is `r` |
| TemphubFileUtils.TrimSelf | backend-kotlin/src/main/kotlin/com/github/aar0u/temphub/util/FileUtils.kt:8 | `p` trimmed by itself is empty |
| TemphubFileUtils.TrimSuffix | backend-kotlin/src/main/kotlin/com/github/aar0u/temphub/util/FileUtils.kt:8 | the result is a suffix, shorter by at most the prefix and one `/`, and a path starting with neither is unchanged |
| TemphubFileUtils.TrimTextual | backend-kotlin/src/main/kotlin/com/github/aar0u/temphub/util/FileUtils.kt:8 | the prefix is text, not a path segment: `/data2/x` under `/data` is `2/x` |
| TemphubFileUtils.Power | backend-kotlin/src/main/kotlin/com/github/aar0u/temphub/util/FileUtils.kt:12-15 | the unit sizes are positive powers of 1024 |
| TemphubFileUtils.Band | backend-kotlin/src/main/kotlin/com/github/aar0u/temphub/util/FileUtils.kt:17-23 | the chosen unit is the largest one not above the size, and bytes for anything below a kilobyte |
| TemphubFileUtils.FormatByBand | backend-kotlin/src/main/kotlin/com/github/aar0u/temphub/util/FileUtils.kt:17-23 | every size prints as size divided by its unit, then the unit; in KB, MB and GB the numeral is 1 to 1023 |
| TemphubFileUtils.PowerValues | backend-kotlin/src/main/kotlin/com/github/aar0u/temphub/util/FileUtils.kt:12-15 | the four units are 1024, 1024², 1024³ and 1024⁴ |
| TemphubFileUtils.DivBounds | backend-kotlin/src/main/kotlin/com/github/aar0u/temphub/util/FileUtils.kt:19-21 | a size in a band divided by its unit lies between 1 and 1023 |
| TemphubFileUtils.FormatSmall | backend-kotlin/src/main/kotlin/com/github/aar0u/temphub/util/FileUtils.kt:18 | below a kilobyte, negatives included, the size prints as `<size> B` |
| TemphubFileUtils.FormatTruncates | backend-kotlin/src/main/kotlin/com/github/aar0u/temphub/util/FileUtils.kt:19 | the division truncates: 1536 is "1 KB" |
| TemphubFileUtils.FormatTerabytes | backend-kotlin/src/main/kotlin/com/github/aar0u/temphub/util/FileUtils.kt:22 | from a terabyte up the numeral is unbounded: n TB prints as `n TB` |
| TemphubFileController.HandleFileList | backend-kotlin/src/main/kotlin/com/github/aar0u/temphub/controller/FileController.kt:23-95 | the method filling `fileInfos` answers what `FileList` describes |
| TemphubFileController.ListParentFirst | backend-kotlin/src/main/kotlin/com/github/aar0u/temphub/controller/FileController.kt:31-58 | `..` is first exactly when the listed path is not the working directory; a missing path answers "failed" "Error listing files" with only that entry |
| TemphubFileController.NoParentAmongEntries | backend-kotlin/src/main/kotlin/com/github/aar0u/temphub/controller/FileController.kt:61 | no listed entry is called `..` |
| TemphubFileController.ListEntries | backend-kotlin/src/main/kotlin/com/github/aar0u/temphub/controller/FileController.kt:61-88 | an existing directory answers "success" with `..` (when due) and then the entries of the non-hidden names |
| TemphubFileController.EntryShapes | backend-kotlin/src/main/kotlin/com/github/aar0u/temphub/controller/FileController.kt:61-77 | one entry per non-hidden name in listing order; directories carry no size, files their length |
| TemphubFileController.CheckDecision | backend-kotlin/src/main/kotlin/com/github/aar0u/temphub/controller/FileController.kt:105-147 | "success" exactly for a non-blank name whose target does not exist; 400 exactly for a blank name; there is no overwrite option |
| TemphubFileController.HandleFileAdd | backend-kotlin/src/main/kotlin/com/github/aar0u/temphub/controller/FileController.kt:150-230 | the disk becomes what `FileAdd` describes, and the answer is its outcome |
| TemphubFileController.AddRefusesExisting | backend-kotlin/src/main/kotlin/com/github/aar0u/temphub/controller/FileController.kt:182-216 | an existing target is never replaced: 500 "Failed to handle file: … already exists" |
| TemphubFileController.AddReportsStored | backend-kotlin/src/main/kotlin/com/github/aar0u/temphub/controller/FileController.kt:182-228 | a successful upload stores the bytes and answers one entry with the target's name, trimmed path and stored length |
| TemphubFileController.FileDownload | backend-kotlin/src/main/kotlin/com/github/aar0u/temphub/controller/FileController.kt:232-250 | 404 "File not found" for a missing target, else 200 with the whole file; only 200 and 404 are answered, and no Range is read |
| TemphubHttpService.FixContentType | backend-kotlin/src/main/kotlin/com/github/aar0u/temphub/service/HttpServiceNano.kt:33-36 | absent gives "text/plain; charset=UTF-8"; a value containing "charset" is kept; any other gets "; charset=UTF-8" appended |
| TemphubHttpService.FixContentTypeIdempotent | backend-kotlin/src/main/kotlin/com/github/aar0u/temphub/service/HttpServiceNano.kt:33-38 | the fixed value names a charset, is only ever an extension, and fixing it again changes nothing |
| TemphubHttpService.CharsetAppended | backend-kotlin/src/main/kotlin/com/github/aar0u/temphub/service/HttpServiceNano.kt:35 | the appended parameter names the charset |
| TemphubHttpService.FixContentTypeCaseSensitive | backend-kotlin/src/main/kotlin/com/github/aar0u/temphub/service/HttpServiceNano.kt:35 | the test is case-sensitive: a value without a lower-case `c` is always extended |
| TemphubHttpService.RouteFor | backend-kotlin/src/main/kotlin/com/github/aar0u/temphub/service/HttpServiceNano.kt:16-24 | exactly the six registered paths have a handler, and `/` is the root page |
| TemphubHttpService.Dispatch | backend-kotlin/src/main/kotlin/com/github/aar0u/temphub/service/HttpServiceNano.kt:40-47 | an exact route wins, then the download prefix, then a static resource of that path |
| TemphubHttpService.DispatchDownloads | backend-kotlin/src/main/kotlin/com/github/aar0u/temphub/service/HttpServiceNano.kt:16-44 | every path under `/files/download/` is a download; `/` is its own route |
| TemphubHttpService.MimeKnown | backend-kotlin/src/main/kotlin/com/github/aar0u/temphub/service/HttpServiceNano.kt:73-83 | a specific type exactly for the listed suffixes, `application/octet-stream` otherwise |
| TemphubHttpService.EndsWithLast | backend-kotlin/src/main/kotlin/com/github/aar0u/temphub/service/HttpServiceNano.kt:75 | a text ending with a suffix ends with the suffix's last character |
| TemphubHttpService.MimeExamples | backend-kotlin/src/main/kotlin/com/github/aar0u/temphub/service/HttpServiceNano.kt:75-82 | `.html` is text/html, `.jpg` and `.jpeg` are image/jpeg, `.zip` is an octet stream |
| TemphubHttpService.StaticReply | backend-kotlin/src/main/kotlin/com/github/aar0u/temphub/service/HttpServiceNano.kt:60-91 | a missing resource is 404 "404 Not Found"; a found one is 200 with the suffix's type |
| TemphubHttpService.Answer | backend-kotlin/src/main/kotlin/com/github/aar0u/temphub/service/HttpServiceNano.kt:48-55 | an exception becomes a 500 "Internal server error: …"; an answer passes unchanged |
| TemphubHttpService.ServeCases | backend-kotlin/src/main/kotlin/com/github/aar0u/temphub/service/HttpServiceNano.kt:41-58 | `/` serves `/pad.html`, an unknown missing path is a 404, a handler's exception is a 500 |
| TemphubHttpService.Serve | backend-kotlin/src/main/kotlin/com/github/aar0u/temphub/service/HttpServiceNano.kt:30-56 | the session's content type is rewritten in place and the request is answered as dispatched |
| NodeUtils.TrimJoined | backend-node/src/utils.js:17-25 | `t + '/' + r` trimmed by `t` is `r`, for all `t` and `r` |
| NodeUtils.TrimSelf | backend-node/src/utils.js:17-25 | `t` trimmed by itself is `''` |
| NodeUtils.TrimSuffix | backend-node/src/utils.js:18-23 | the result is a suffix: the prefix, when present, then at most one `/` is removed |
| NodeUtils.TrimAgreesWithTemphub | backend-node/src/utils.js:17-25 | the same two steps as temphub's trim |
| NodeUtils.JsonReply | backend-node/src/utils.js:27-34 | 200 exactly for "success", else 400; status and message always, data exactly as given |
| NodeUtils.JsonResponse | backend-node/src/utils.js:27-34 | `res` receives that code and that record |
| NodeSort.CompareOrder | backend-node/src/controllers/fileController.js:33-43 | the comparator does not put `a` after `b` exactly when a directory precedes a file or same-kind names are in lower-cased order |
| NodeSort.InOrderTransitive | backend-node/src/controllers/fileController.js:33-43 | the listing order is transitive |
| NodeSort.Insert | backend-node/src/controllers/fileController.js:33 | an insertion adds exactly that name |
| NodeSort.Sort | backend-node/src/controllers/fileController.js:33 | the sort is a permutation of its input |
| NodeSort.InsertSorted | backend-node/src/controllers/fileController.js:33-43 | inserting into a sorted list keeps it sorted |
| NodeSort.SortIsSorted | backend-node/src/controllers/fileController.js:33-43 | the sort's result is sorted |
| NodeSort.SortSorted | backend-node/src/controllers/fileController.js:33-43 | every directory comes before every file, and same-kind names are ordered by lower-cased form |
| NodeFileController.HandleList | backend-node/src/controllers/fileController.js:9-63 | `res` gets the code and record of `FileList`, or the handler throws and `res` is untouched |
| NodeFileController.ListParentFirst | backend-node/src/controllers/fileController.js:14-30 | `..` is first exactly when the path is not the working directory, with path `<trimmed>/..`; a failed `readdir` answers 400 with that entry kept |
| NodeFileController.NoParentAmongEntries | backend-node/src/controllers/fileController.js:31-32 | no sorted entry is called `..` |
| NodeFileController.ListVanishedName | backend-node/src/controllers/fileController.js:34-48 | a listed name `lstatSync` cannot find makes the handler throw |
| NodeFileController.EntryKinds | backend-node/src/controllers/fileController.js:45-56 | one entry per sorted name, a directory exactly for the names `lstatSync` calls directories |
| NodeFileController.EntryOrder | backend-node/src/controllers/fileController.js:33-43 | every directory entry precedes every file entry, and same-kind entries are ordered by lower-cased name |
| NodeFileController.EntryNames | backend-node/src/controllers/fileController.js:31-57 | the entries are a permutation of the non-hidden names |
| NodeFileController.EntrySizes | backend-node/src/controllers/fileController.js:53 | directories carry `''`, files their byte size |
| NodeFileController.ListEntries | backend-node/src/controllers/fileController.js:45-61 | a readable directory answers 200 "success" "Files listed successfully" with `..` (when due) then the sorted entries |
| NodeFileController.RangeParts | backend-node/src/controllers/fileController.js:158 | the split always has a first piece |
| NodeFileController.ReadStream | backend-node/src/controllers/fileController.js:174 | `createReadStream` streams exactly when start and end are integers with 0 ≤ start ≤ end, and never more than end − start + 1 bytes |
| NodeFileController.GetMissingOrWhole | backend-node/src/controllers/fileController.js:149-177 | a missing file answers 400 "File not found". Without Range the whole file is sent; a directory is passed on to `next()`, as `sendFile` does on EISDIR |
| NodeFileController.GetRangeAlways206 | backend-node/src/controllers/fileController.js:157-174 | with a Range header on a file there is no 416: the handler answers 206 with `bytes start-end/size`, the computed length and the streamed bytes exactly when `createReadStream` accepts start and end, and otherwise throws with the stream's error |
| NodeFileController.RangePartsOf | backend-node/src/controllers/fileController.js:158 | `bytes=<a>-<b>` splits into exactly `a` and `b` |
| NodeFileController.RangeOfPieces | backend-node/src/controllers/fileController.js:158-162 | start is `parseInt(a)`; end is `parseInt(b)` capped at the chunk end, or the last byte capped at it when `b` is empty |
| NodeFileController.ParseNat | backend-node/src/controllers/fileController.js:159 | a printed number parses back to itself and has no `-` |
| NodeFileController.RangeArithmetic | backend-node/src/controllers/fileController.js:158-163 | `bytes=s-e`: start s, end min(e, s + 2 MiB − 1), Content-Length end − s + 1, whatever the size |
| NodeFileController.RangeCapped | backend-node/src/controllers/fileController.js:161-163 | an asked end past the chunk is cut to the chunk's last byte, and the length follows |
| NodeFileController.RangeOfNumbers | backend-node/src/controllers/fileController.js:158-162 | `bytes=s-e` gives start s and the end `Math.min(e, s + 2 MiB − 1)` |
| NodeFileController.RangeLength | backend-node/src/controllers/fileController.js:163 | Content-Length is end − start + 1 |
| NodeFileController.RangeOpenEnded | backend-node/src/controllers/fileController.js:162 | `bytes=s-` ends at the last byte or the chunk end, whichever is first |
| NodeFileController.RangeEndNotClamped | backend-node/src/controllers/fileController.js:162-174 | an explicit end past the file is not clamped: Content-Length promises e + 1 bytes while the stream sends the whole, shorter file |
| NodeFileController.RangeStartPastEnd | backend-node/src/controllers/fileController.js:159-174 | `bytes=<s>-` with s at or past the end of a file: the end falls before the start, `createReadStream` throws and nothing is sent |
| NodeFileController.RangePastEndEmpty | backend-node/src/controllers/fileController.js:159-174 | `bytes=<s>-<e>` with size ≤ s ≤ e is not refused and nothing throws: a 206 whose Content-Length is the capped end − s + 1, with no bytes streamed |
| NodeFileController.RangeSuffixIsNaN | backend-node/src/controllers/fileController.js:159-174 | `bytes=-N` on a file: start, end and length are NaN, and `createReadStream` throws before anything is sent |
| NodeFileController.CheckDecision | backend-node/src/controllers/fileController.js:186-195 | 200 exactly for a non-empty name whose target is absent. An empty name gets 400 "No filename provided", an existing target 400 "File already exists". There is no overwrite option |
| NodeFileController.CheckAbsentFilename | backend-node/src/controllers/fileController.js:183-186 | an absent filename reaches `path.join` first, so the handler throws |
| NodeFileController.CheckMalformedDirname | backend-node/src/controllers/fileController.js:184 | a malformed escape in `dirname` throws a URIError |
| NodeFileController.CheckEscapedDirname | backend-node/src/controllers/fileController.js:184 | a directory escaped with `escapeFilename` is checked as the client named it |
| FieldValidation.Check | src/middlewares/validateFields.js:9-21 | "required" exactly for a falsy or blank value. A truthy non-string throws at `trim`. "Too long" exactly for a non-blank string over 8000 code units |
| FieldValidation.Validation | src/middlewares/validateFields.js:6-24 | a rejection names a checked field; `next` is reached exactly when every field passes |
| FieldValidation.TextRequired | src/middlewares/validateFields.js:9-14 | missing, falsy, empty or whitespace-only text is "required" |
| FieldValidation.TextTooLong | src/middlewares/validateFields.js:16-21 | non-blank text over 8000 code units is "too long" |
| FieldValidation.TextAccepted | src/middlewares/validateFields.js:16-24 | every other string, exactly 8000 long included, is passed on |
| FieldValidation.SpacesAreRequired | src/middlewares/validateFields.js:9-21 | the emptiness test comes first: 9000 spaces are "required" |
| FieldValidation.LimitAccepted | src/middlewares/validateFields.js:16 | 8000 letters pass |
| SrcValidateFields.ValidateFields | src/middlewares/validateFields.js:3-25 | a rejection answers 400 `{failed, "<field> is required."/"is too long."}` without `next`. Otherwise `next` runs once and no answer is written. A non-string throws |
| NodeValidateFields.RejectReply | backend-node/src/middlewares/validateFields.js:10-16 | a rejection is always "failed", hence 400, with no data |
| NodeValidateFields.TextRequiredReply | backend-node/src/middlewares/validateFields.js:10-12 | missing or blank text answers 400 "Field text is required" |
| NodeValidateFields.TextTooLongReply | backend-node/src/middlewares/validateFields.js:14-16 | non-blank text over 8000 answers 400 "Field text is too long" |
| NodeValidateFields.ValidateFields | backend-node/src/middlewares/validateFields.js:4-20 | exactly one of "answer sent through `jsonResponse`" and "`next` called once" happens, or the middleware throws |
| SrcUtils.TrimConcat | src/utils.js:10-16 | `t + r` trimmed by `t` is `r`, for all `t` and `r` |
| SrcUtils.TrimKeepsSeparator | src/utils.js:13 | the separator stays: `t + "/x"` trims to `/x` |
| SrcUtils.TrimSelf | src/utils.js:13 | `t` trimmed by itself is `''` |
| SrcUtils.TrimSuffix | src/utils.js:10-16 | a text not starting with the prefix is unchanged; the result is always a suffix |
| SrcFileController.HandleList | src/controllers/fileController.js:9-53 | the handler answers what `FileList` describes |
| SrcFileController.ListParentFirst | src/controllers/fileController.js:14-28 | `..` is first exactly when the path is not the working directory; a failed `readdir` answers "failed" "Error listing files" with it kept |
| SrcFileController.NoParentAmongEntries | src/controllers/fileController.js:31-33 | no listed entry is called `..` |
| SrcFileController.ListParentPath | src/controllers/fileController.js:17 | the `..` of sub-folder `d` has the path `/d/..`, since this trim keeps the separator |
| SrcFileController.ListEntries | src/controllers/fileController.js:31-51 | "success" with the non-hidden names in `readdir` order, unsorted. Each entry has the trimmed path and is a directory exactly for directories. Sizes are `''` for directories and the length for files |
| SrcFileController.ListVanishedName | src/controllers/fileController.js:38 | a listed name `statSync` cannot find makes the handler throw |
| SrcFileController.DownloadDecision | src/controllers/fileController.js:135-146 | "File not found" exactly when nothing is at the path. A file is sent whole under the requested name. A directory is passed on to `next()` |
| SrcFileController.CheckDecision | src/controllers/fileController.js:148-162 | "success" exactly for a non-empty name whose target is absent; otherwise the refusal says why |
| SrcFileController.CheckAgreesWithNode | src/controllers/fileController.js:148-162 | the older and newer Node checks throw alike and otherwise answer the same status and message |
| SrcFileController.CheckAbsentFilename | src/controllers/fileController.js:149-152 | an absent filename makes `path.join` throw before the emptiness test |
| SrcTextController.ReplayAppends | src/controllers/textController.js:14-16 | saves only append: the old history stays and one entry per request follows, in order |
| SrcTextController.ValidatedText | src/controllers/textController.js:19-25 | a saved text the validator let through is a non-blank string of at most 8000 code units |
| SrcTextController.TextStore.constructor | src/controllers/textController.js:4-12 | at module load the history is one "Started" entry |
| SrcTextController.TextStore.LoadHistory | src/controllers/textController.js:7-10 | `loadHistory` replaces the history by one "Started" entry |
| SrcTextController.TextStore.SaveText | src/controllers/textController.js:14-16 | `saveText` appends one entry and leaves the rest untouched |
| SrcTextController.TextStore.SaveTextHandler | src/controllers/textController.js:18-27 | the body's `text` is stored, then "success" "Saved successfully." is answered |
| SrcTextController.TextStore.GetHistoryHandler | src/controllers/textController.js:29-31 | the whole history is answered, unchanged |
| SrcTextController.FromStart | src/controllers/textController.js:9-16 | from load, the history is "Started" and then every saved text in order |
| StaticUtils.Code | static/js/utils.js:24-25 | each escape is `%` and two characters, neither of them `%`, and none of them unsafe or `$` |
| StaticUtils.CodeListed | static/js/utils.js:24-25 | every escape is one of the eight the function writes |
| StaticUtils.Chain6Concat | static/js/utils.js:24-25 | the six global replacements distribute over concatenation |
| StaticUtils.Chain6Map | static/js/utils.js:24-25 | the six global replacements act character by character, `%` first so no escape is escaped again |
| StaticUtils.AmpersandStep | static/js/utils.js:25 | the last `&` replacement completes every character's escape |
| StaticUtils.ReplaceFirstDollar | static/js/utils.js:25 | the replacement without `g` changes only the first `$` |
| StaticUtils.EscapeMatchesEncode | static/js/utils.js:23-26 | the chain of eight replacements equals a one-pass encoder that escapes the first `$` only |
| StaticUtils.EscapeNoDollar | static/js/utils.js:23-26 | for a name without `$` the chain equals the one-pass encoder |
| StaticUtils.EscapeFirstDollar | static/js/utils.js:25 | for a name with a `$`, the chain escapes the first one and keeps the later ones, as the one-pass encoder does |
| StaticUtils.EncodeSafe | static/js/utils.js:24-25 | the encoder's output has no unsafe character, and every `%` in it begins an escape |
| StaticUtils.EncodePlain | static/js/utils.js:23-26 | the encoder leaves a name with nothing to escape unchanged |
| StaticUtils.EncodeDollars | static/js/utils.js:25 | the encoder turns only the first `$` into an escape |
| StaticUtils.EscapeSafe | static/js/utils.js:24-25 | the output has no `+ ? ^ space # &` and no `%` outside an escape |
| StaticUtils.EscapePlain | static/js/utils.js:23-26 | a name with nothing to escape passes unchanged |
| StaticUtils.EscapeDollars | static/js/utils.js:25 | only the first `$` is escaped: one `$` fewer comes out, and none when none went in |
| StaticUtils.DecodeCode | static/js/utils.js:24-25 | each escape percent-decodes to its character |
| StaticUtils.CodeHex | static/js/utils.js:24-25 | the two digits of each escape spell its character's code |
| StaticUtils.DecodeEncode | static/js/utils.js:23-26 | percent-decoding undoes the encoder |
| StaticUtils.EscapeRoundTrip | static/js/utils.js:23-26 | percent-decoding (section 2.1 of RFC 3986) the escaped name gives the name back |
| AndroidLog.Appended | android/app/src/main/java/com/github/aar0u/quickhub/android/Log.kt:41-47 | below capacity the log gains the line at the end; at capacity the oldest line goes and the new one is last |
| AndroidLog.AppendedKeepsNewest | android/app/src/main/java/com/github/aar0u/quickhub/android/Log.kt:41-47 | the 300-line bound is kept and the new line is last. The surviving lines are the newest, in their old order |
| AndroidLog.AppendAllKeepsLast | android/app/src/main/java/com/github/aar0u/quickhub/android/Log.kt:41-47 | from an empty log, any run of lines leaves exactly its last 300 |
| AndroidLog.LevelRouting | android/app/src/main/java/com/github/aar0u/quickhub/android/Log.kt:82-86 | ERROR in any case goes to `e`; WARN, INFO, DEBUG and TRACE go to `i` |
| AndroidLog.LogBuffer.AddLog | android/app/src/main/java/com/github/aar0u/quickhub/android/Log.kt:41-47 | the list is replaced by its appended copy |
| AndroidLog.LogBuffer.I | android/app/src/main/java/com/github/aar0u/quickhub/android/Log.kt:49-56 | `<ts> INFO/<tag>: <msg>` is added |
| AndroidLog.LogBuffer.E | android/app/src/main/java/com/github/aar0u/quickhub/android/Log.kt:58-65 | `<ts> ERROR/<tag>: <msg>` is added |
| AndroidLog.LogBuffer.Capture | android/app/src/main/java/com/github/aar0u/quickhub/android/Log.kt:76-87 | an event is logged as ERROR exactly when its level equals "ERROR" ignoring case, and as INFO otherwise |
| StaticUtils.EscapeFilename | static/js/utils.js:23-26 | defines `escapeFilename` as its chain of replacements; `EscapeMatchesEncode`, `EscapeSafe` and `EscapeRoundTrip` state its properties |
| StaticUtils.Encode | static/js/utils.js:24-25 | the reference encoder, one character at a time; `EscapeMatchesEncode` proves the chain equal to it |
| NodeFileController.FileList | backend-node/src/controllers/fileController.js:9-63 | defines `listHandler`'s answer; `ListParentFirst`, `ListEntries`, `EntryOrder` and `EntryNames` state it |
| NodeFileController.FileGet | backend-node/src/controllers/fileController.js:145-180 | defines `getHandler`'s answer; `GetMissingOrWhole`, `GetRangeAlways206` and the range lemmas state it |
| NodeFileController.FileCheck | backend-node/src/controllers/fileController.js:182-196 | defines `checkHandler`'s answer; `CheckDecision` and the dirname lemmas state it |
| QuickhubFileController.FileList | backend-kotlin/src/main/kotlin/com/github/aar0u/quickhub/controller/FileController.kt:24-96 | defines `handleFileList`'s answer; `ListParentFirst`, `ListMissing`, `ListEntries` and `EntryShapes` state it |
| QuickhubFileController.FileCheck | backend-kotlin/src/main/kotlin/com/github/aar0u/quickhub/controller/FileController.kt:98-149 | defines `handleFileCheck`'s answer; `CheckDecision` states it |
| QuickhubFileController.FileAdd | backend-kotlin/src/main/kotlin/com/github/aar0u/quickhub/controller/FileController.kt:151-221 | defines `handleFileAdd`'s effect on the disk and the listener, and its answer, including the 500 when `formatFileSize` throws; the Add lemmas and `CheckThenAdd` state it |
| QuickhubFileController.RangeWindow | backend-kotlin/src/main/kotlin/com/github/aar0u/quickhub/controller/FileController.kt:250-265 | defines the 416 test and the window; `RangeWindowBounds` and the range lemmas state it |
| QuickhubFileController.RangeServed | backend-kotlin/src/main/kotlin/com/github/aar0u/quickhub/controller/FileController.kt:259-281 | a 416 for an unsatisfiable window, else 206 with exactly the window's bytes and the three range headers |
| TemphubFileController.FileList | backend-kotlin/src/main/kotlin/com/github/aar0u/temphub/controller/FileController.kt:22-95 | defines the listing; `ListParentFirst`, `ListEntries` and `EntryShapes` state it |
| TemphubFileController.FileCheck | backend-kotlin/src/main/kotlin/com/github/aar0u/temphub/controller/FileController.kt:97-148 | defines the check; `CheckDecision` states it |
| TemphubFileController.FileAdd | backend-kotlin/src/main/kotlin/com/github/aar0u/temphub/controller/FileController.kt:150-230 | defines the upload's effect and answer; `AddRefusesExisting` and `AddReportsStored` state it |
| SrcFileController.FileList | src/controllers/fileController.js:9-53 | defines `listHandler`'s answer; `ListParentFirst` and `ListEntries` state it |
| SrcFileController.FileCheck | src/controllers/fileController.js:148-162 | defines `checkHandler`'s answer; `CheckDecision` and `CheckAgreesWithNode` state it |
| SrcFileController.FileDownload | src/controllers/fileController.js:135-146 | defines `downloadHandler`'s answer; `DownloadDecision` states it |
| TemphubHttpService.ServeReply | backend-kotlin/src/main/kotlin/com/github/aar0u/temphub/service/HttpServiceNano.kt:30-91 | defines what `serve` answers for a dispatched request; `ServeCases` and `Serve` state it |
| NodeSort.Compare | backend-node/src/controllers/fileController.js:33-43 | defines the sort comparator; `CompareOrder` states its meaning |
| NodeSort.LocaleCompare | backend-node/src/controllers/fileController.js:39 | the stand-in for `localeCompare`: code-point order; `Text.LexLeTotal`, `LexLeAntisymmetric` and `LexLeTransitive` state it is a total order |
| QuickhubTextController.Replay | backend-kotlin/src/main/kotlin/com/github/aar0u/quickhub/controller/TextController.kt:51-56 | the history after a run of adds; `ReplayAppends` and `FromStart` state it |
| SrcTextController.Replay | src/controllers/textController.js:14-16 | the history after a run of saves; `ReplayAppends` and `FromStart` state it |

## Left out

- Multipart parsing and upload streaming are foreign libraries (NanoHTTPD `parseBody`, Busboy). An upload is modelled from the temporary file the library left, so backend-node's and `src/`'s `uploadHandler` are not modelled, and neither is their progress logging.
- JSON decoding is left out. gson and `express.json` are foreign, so bodies and metadata arrive parsed. Metadata that gson cannot parse is modelled as `Unparsable`.
- `Paths.get`, `path.join` and `File.absolutePath` normalisation are left out. Joining is plain concatenation with one `/`, so `..`, `.` and repeated slashes in client text are not resolved, and an escape from the working directory is not exhibited.
- Upload times are left out: `uploadTime`, `LocalDateTime`, `toLocaleString` and the configured date format are clock- and locale-dependent. History timestamps are parameters.
- MIME probing is left out (`getMimeTypeForFile`, `Files.probeContentType`, Express `res.type` and `res.download`); those replies carry no content type.
- NodeSort.LocaleCompare: `localeCompare` is modelled as code-point order of the ASCII-lower-cased names, because locale collation is not available.
- NodeFileController.FileGet: with a Range header a directory is modelled as throwing EISDIR; whether `createReadStream` first rejects its options (a synchronous error) or the directory read fails later depends on the size the system reports, which is not modelled. Without a Range header, here and in SrcFileController.FileDownload, a directory is passed on to `next()`; what the next handler answers is not part of this model.
- Files.CopyErrorMessage: the messages of `copyTo`'s exceptions follow kotlin-stdlib's texts; the operating system's own reasons are approximated.
- SrcFileController: `src/utils.js` exports no `jsonResponse`. As written, every handler that calls it would throw a TypeError. The model takes each call as sending the record it is given, with no HTTP code.
- Numbers.JsParseInt: JavaScript numbers are unbounded integers or NaN here; rounding above 2^53, fractions and the text of exponents are not modelled.
- PercentCoding.PercentDecode: only escapes of octets below 0x80 are decoded. A multi-byte UTF-8 sequence is treated as malformed (throws), so names with non-ASCII characters are outside the round-trip lemma's reach.
- Text.LowerChar: only ASCII letters are lower-cased, for `toLowerCase`, `equals(ignoreCase)` and the level test.
- Logging is left out: every `log.info`, `console.log`, NanoHTTPD's logger setup and Android's logcat calls. `shouldIgnoreMessage` itself is modelled.
- The Android log file is left out: its appends, the 5 MB truncation and the appender registration touch storage and framework state.
- The float `formatFileSize` copies (quickhub, backend-node, `src/`, `static/js`) are floating-point formatting; only temphub's integer one is modelled.
- QuickhubFileController.SizeFormatError: models only whether quickhub's `formatFileSize` throws, with the unit index computed exactly, so the threshold is 1024^5; `Math.log` rounding can reach index 5 a few bytes below 1024^5 (from 2^50 − 3 with correctly rounded logarithms), and the formatted text, which goes only to the log, is not modelled.
- Server plumbing is left out: HttpsService, JavalinService, the stub HttpService, `Main`, Express routing, network interfaces and the Android UI.
- The temphub TextController and FileInfo.kt are not part of this model.
- Concurrency is left out: the check-then-upload race, `@Synchronized` on the Android log, and the asynchronous callbacks of `fs.readdir` and `fs.access`. Each handler runs to completion on one filesystem state. A throw inside a `fs.readdir` or `fs.access` callback in backend-node escapes Express and ends the whole process, not only the request; `Threw` stands for both that and a throw Express turns into an error response.
- Numbers.ParseLong: only ASCII digits are read. `toLongOrNull` on the JVM also accepts other Unicode decimal digits (through `Character.digit`), so `bytes=١٢-` starts at 12 in quickhub and at 0 in the model.
- TemphubHttpService.Answer: the 500 body carries the exception's kind (such as "FileNotFoundException") where `HttpServiceNano` prints `e.message`, whose text comes from the runtime.
- QuickhubFileController.HandleFileDownload: the size reported for a directory is a parameter. The file's length is taken to fit a Long, as `File.length()` guarantees; `ByteArray(length.toInt())` truncation is not reached, since a window is at most 8 MiB.
