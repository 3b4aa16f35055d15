/** backend-node's file endpoints: the listing (sorted, directories
    first), the download with its 2 MiB range window, and the upload check.
    Every JSON answer goes through `jsonResponse`, so "failed" is HTTP 400. */
module NodeFileController {
  import opened Text
  import opened Numbers
  import opened Files
  import opened Http
  import opened Listing
  import opened Express
  import opened PercentCoding
  import NodeUtils
  import NodeSort
  import StaticUtils

  datatype Config = Config(workingDir: string)

  function Relative(cfg: Config, p: string): string {
    NodeUtils.TrimFromBeginning(p, cfg.workingDir)
  }

  // ---------------------------------------------------------------- listing

  /** `path.join(workingDir, req.body.dirname || '')`; None where `path.join`
      throws because a truthy `dirname` is not a string. */
  function ListTarget(cfg: Config, body: map<string, JsValue>): Option<string> {
    var dirname := Field(body, "dirname");
    if !Truthy(dirname) then Some(Join(cfg.workingDir, ""))
    else if dirname.Str? then Some(Join(cfg.workingDir, dirname.s))
    else None
  }

  /** The `..` entry, unshifted when the listed path is not the working directory. */
  function DotDot(cfg: Config, full: string): seq<FileInfo> {
    if full != cfg.workingDir then [FileInfo("..", Relative(cfg, full) + "/..", Directory, Unset)] else []
  }

  /** One entry: `lstatSync` tells the type, and the size is `''` for a directory. */
  function EntryFor(fs: FileSystem, cfg: Config, dir: string, name: string): FileInfo {
    var child := Join(dir, name);
    var kind := KindAt(fs, child);
    FileInfo(name, Relative(cfg, child), kind, if kind == Directory then Blank else Bytes(LengthAt(fs, child)))
  }

  function EntryMaker(fs: FileSystem, cfg: Config, dir: string): string -> FileInfo {
    name => EntryFor(fs, cfg, dir, name)
  }

  /** Every listed name can be `lstat`-ed. */
  predicate AllPresent(fs: FileSystem, dir: string, names: seq<string>) {
    forall i :: 0 <= i < |names| ==> Join(dir, names[i]) in fs
  }

  /** The names `lstatSync` reports as directories. */
  function DirsAmong(fs: FileSystem, dir: string, names: seq<string>): set<string> {
    set n | n in names && Join(dir, n) in fs && fs[Join(dir, n)].Dir?
  }

  /** What `listHandler` answers. `readdir` fails on a missing path or a
      file; `lstatSync` throws on a listed name that is gone. */
  function FileList(fs: FileSystem, cfg: Config, body: map<string, JsValue>): Outcome<ApiReply<ListData>> {
    match ListTarget(cfg, body)
    case None => Threw("TypeError")
    case Some(full) =>
      var dot := DotDot(cfg, full);
      if !(full in fs && fs[full].Dir?) then
        Responded(NodeUtils.JsonReply("failed", "Error listing files", Some(ListData(Relative(cfg, full), dot))))
      else
        var visible := Visible(fs[full].names);
        if !AllPresent(fs, full, visible) then Threw("ENOENT")
        else
          var sorted := NodeSort.Sort(DirsAmong(fs, full, visible), visible);
          Responded(NodeUtils.JsonReply("success", "Files listed successfully",
            Some(ListData(Relative(cfg, full), dot + MapEntries(sorted, EntryMaker(fs, cfg, full))))))
  }

  /** `listHandler`: `..` unshifted first, the sorted entries pushed after it, and the reply sent. */
  method HandleList(fs: FileSystem, cfg: Config, body: map<string, JsValue>, res: Response<ListData>) returns (thrown: Option<string>)
    modifies res
    ensures match FileList(fs, cfg, body)
      case Responded(r) => thrown == None && res.code == Some(r.code) && res.json == Some(NodeUtils.RecordOf(r))
      case Threw(e) => thrown == Some(e) && res.code == old(res.code) && res.json == old(res.json)
  {
    var target := ListTarget(cfg, body);
    if target.None? {
      return Some("TypeError");
    }
    var fullPath := target.value;
    var fileInfos: seq<FileInfo> := [];
    if fullPath != cfg.workingDir {
      fileInfos := [FileInfo("..", NodeUtils.TrimFromBeginning(fullPath, cfg.workingDir) + "/..", Directory, Unset)] + fileInfos;
    }
    assert fileInfos == DotDot(cfg, fullPath);
    if !(fullPath in fs && fs[fullPath].Dir?) {
      NodeUtils.JsonResponse(res, "failed", "Error listing files", Some(ListData(NodeUtils.TrimFromBeginning(fullPath, cfg.workingDir), fileInfos)));
      return None;
    }
    var visible := Visible(fs[fullPath].names);
    if !AllPresent(fs, fullPath, visible) {
      return Some("ENOENT");
    }
    var fileList := NodeSort.Sort(DirsAmong(fs, fullPath, visible), visible);
    fileInfos := fileInfos + MapEntries(fileList, EntryMaker(fs, cfg, fullPath));
    NodeUtils.JsonResponse(res, "success", "Files listed successfully", Some(ListData(NodeUtils.TrimFromBeginning(fullPath, cfg.workingDir), fileInfos)));
    thrown := None;
  }

  /** `..` comes first exactly when the listed path is not the working
      directory, with the path `<trimmed>/..`; a failed `readdir` answers
      400 and still carries that entry. */
  lemma ListParentFirst(fs: FileSystem, cfg: Config, body: map<string, JsValue>)
    requires ListTarget(cfg, body).Some? && FileList(fs, cfg, body).Responded?
    ensures var full := ListTarget(cfg, body).value;
      var r := FileList(fs, cfg, body).reply;
      var files := r.data.value.files;
      ((|files| > 0 && files[0].name == "..") <==> full != cfg.workingDir)
      && (full != cfg.workingDir ==> files[0] == FileInfo("..", Relative(cfg, full) + "/..", Directory, Unset))
      && (!(full in fs && fs[full].Dir?) ==> r == ApiReply(400, "failed", "Error listing files", Some(ListData(Relative(cfg, full), DotDot(cfg, full)))))
  {
    var full := ListTarget(cfg, body).value;
    var files := FileList(fs, cfg, body).reply.data.value.files;
    if full == cfg.workingDir && full in fs && fs[full].Dir? {
      NoParentAmongEntries(fs, cfg, full);
      assert files == SortedEntries(fs, cfg, full);
    }
  }

  /** No sorted entry is called `..`, since hidden names are dropped. */
  lemma NoParentAmongEntries(fs: FileSystem, cfg: Config, full: string)
    requires full in fs && fs[full].Dir?
    ensures var entries := SortedEntries(fs, cfg, full);
      forall i :: 0 <= i < |entries| ==> entries[i].name != ".."
  {
    var visible := Visible(fs[full].names);
    var sorted := NodeSort.Sort(DirsAmong(fs, full, visible), visible);
    assert StartsWith("..", ".");
    forall i | 0 <= i < |sorted| ensures sorted[i] != ".." {
      assert sorted[i] in multiset(sorted);
      assert sorted[i] in visible;
    }
  }

  /** A name `readdir` lists but `lstatSync` cannot find makes the handler throw. */
  lemma ListVanishedName(fs: FileSystem, cfg: Config, body: map<string, JsValue>, name: string)
    requires ListTarget(cfg, body).Some?
    requires var full := ListTarget(cfg, body).value;
      full in fs && fs[full].Dir? && name in Visible(fs[full].names) && Join(full, name) !in fs
    ensures FileList(fs, cfg, body) == Threw("ENOENT")
  {
    var full := ListTarget(cfg, body).value;
    var visible := Visible(fs[full].names);
    var i :| 0 <= i < |visible| && visible[i] == name;
  }

  /** The entries pushed after `..` when `readdir` succeeds. */
  function SortedEntries(fs: FileSystem, cfg: Config, full: string): seq<FileInfo>
    requires full in fs && fs[full].Dir?
  {
    var visible := Visible(fs[full].names);
    MapEntries(NodeSort.Sort(DirsAmong(fs, full, visible), visible), EntryMaker(fs, cfg, full))
  }

  /** An entry is a directory exactly when its name is one `lstatSync` reports as a directory. */
  lemma EntryKinds(fs: FileSystem, cfg: Config, full: string)
    requires full in fs && fs[full].Dir?
    ensures var visible := Visible(fs[full].names);
      var dirs := DirsAmong(fs, full, visible);
      var sorted := NodeSort.Sort(dirs, visible);
      var entries := SortedEntries(fs, cfg, full);
      |entries| == |sorted|
      && forall i :: 0 <= i < |sorted| ==> entries[i].name == sorted[i] && (sorted[i] in dirs <==> entries[i].kind == Directory)
  {
    var visible := Visible(fs[full].names);
    var dirs := DirsAmong(fs, full, visible);
    var sorted := NodeSort.Sort(dirs, visible);
    var entries := SortedEntries(fs, cfg, full);
    forall i | 0 <= i < |sorted| ensures entries[i].name == sorted[i] && (sorted[i] in dirs <==> entries[i].kind == Directory) {
      assert sorted[i] in multiset(sorted);
      DirsAmongMember(fs, full, visible, sorted[i]);
    }
  }

  lemma DirsAmongMember(fs: FileSystem, dir: string, names: seq<string>, n: string)
    requires n in multiset(names)
    ensures n in DirsAmong(fs, dir, names) <==> KindAt(fs, Join(dir, n)) == Directory
  {
  }

  /** Every directory comes before every file, and names of one kind are ordered by their lower-cased forms. */
  lemma EntryOrder(fs: FileSystem, cfg: Config, full: string)
    requires full in fs && fs[full].Dir?
    ensures var entries := SortedEntries(fs, cfg, full);
      forall i, j :: 0 <= i < j < |entries| ==>
        (entries[i].kind == RegularFile ==> entries[j].kind == RegularFile)
        && (entries[i].kind == entries[j].kind ==> LexLe(Lower(entries[i].name), Lower(entries[j].name)))
  {
    var visible := Visible(fs[full].names);
    NodeSort.SortSorted(DirsAmong(fs, full, visible), visible);
    EntryKinds(fs, cfg, full);
  }

  /** Each non-hidden name appears as often as `readdir` gives it. */
  lemma EntryNames(fs: FileSystem, cfg: Config, full: string)
    requires full in fs && fs[full].Dir?
    ensures multiset(NamesOf(SortedEntries(fs, cfg, full))) == multiset(Visible(fs[full].names))
  {
    var visible := Visible(fs[full].names);
    var sorted := NodeSort.Sort(DirsAmong(fs, full, visible), visible);
    assert NamesOf(SortedEntries(fs, cfg, full)) == sorted;
  }

  /** Only files carry a byte size, their length on disk; directories carry `''`. */
  lemma EntrySizes(fs: FileSystem, cfg: Config, full: string)
    requires full in fs && fs[full].Dir?
    ensures var entries := SortedEntries(fs, cfg, full);
      forall i :: 0 <= i < |entries| ==>
        (entries[i].kind == Directory ==> entries[i].size == Blank)
        && (entries[i].kind == RegularFile ==> entries[i].size == Bytes(LengthAt(fs, Join(full, entries[i].name))))
  {
    EntryKinds(fs, cfg, full);
  }

  /** A successful listing is `..` (when due) followed by the sorted entries. */
  lemma ListEntries(fs: FileSystem, cfg: Config, body: map<string, JsValue>)
    requires ListTarget(cfg, body).Some? && FileList(fs, cfg, body).Responded?
    requires var full := ListTarget(cfg, body).value; full in fs && fs[full].Dir?
    ensures var full := ListTarget(cfg, body).value;
      var r := FileList(fs, cfg, body).reply;
      r.code == 200 && r.status == "success" && r.message == "Files listed successfully"
      && r.data.value.files == DotDot(cfg, full) + SortedEntries(fs, cfg, full)
  {
  }

  // --------------------------------------------------------------- download

  const MAX_CHUNK: int := 2 * 1024 * 1024

  /** `rangeHeader.replace(/bytes=/, '').split('-')`: the first `bytes=` anywhere is removed. */
  function RangeParts(header: string): (r: seq<string>)
    ensures |r| >= 1
  {
    Split(ReplaceFirstText(header, "bytes=", ""), '-')
  }

  function RangeStart(header: string): JsNum {
    JsParseInt(RangeParts(header)[0])
  }

  /** The asked end, or the last byte, capped at the end of a 2 MiB chunk; NaN spreads. */
  function RangeEnd(header: string, size: nat): JsNum {
    var parts := RangeParts(header);
    var chunkEnd := RangeStart(header).Plus(MAX_CHUNK - 1);
    if |parts| > 1 && parts[1] != "" then JsMin(JsParseInt(parts[1]), chunkEnd)
    else JsMin(Num(size - 1), chunkEnd)
  }

  /** `(end - start) + 1`. */
  function ChunkSize(header: string, size: nat): JsNum {
    Length(RangeStart(header), RangeEnd(header, size))
  }

  function Length(start: JsNum, end: JsNum): JsNum {
    end.Minus(start).Plus(1)
  }

  function ContentRange(header: string, size: nat): string {
    "bytes " + JsNumToString(RangeStart(header)) + "-" + JsNumToString(RangeEnd(header, size)) + "/" + NatToString(size)
  }

  /** `fs.createReadStream(filePath, {start, end})`: both must be integers
      of at least 0 and start may not pass end; the bytes from start to end
      inclusive that the file has are streamed. */
  function ReadStream(data: seq<byte>, start: JsNum, end: JsNum): (r: Outcome<seq<byte>>)
    ensures r.Responded? <==> start.Num? && end.Num? && 0 <= start.v <= end.v
    ensures r.Responded? ==> |r.reply| <= end.v - start.v + 1
  {
    if start.NaN? || end.NaN? || start.v < 0 || end.v < 0 || start.v > end.v then Threw("ERR_OUT_OF_RANGE")
    else
      var from := if start.v <= |data| then start.v else |data|;
      var to := if end.v + 1 <= |data| then end.v + 1 else |data|;
      Responded(data[from..to])
  }

  /** What a download does: send a JSON failure, a 206 with its headers and
      the streamed bytes, or the whole file, or pass the request on with
      `next()`. */
  datatype Download =
    | Json(reply: ApiReply<()>)
    | Partial(code: int, contentRange: string, contentLength: JsNum, stream: seq<byte>)
    | Whole(data: seq<byte>)
    | PassedOn

  /** What `getHandler` does. `writeHead` only stores the 206 headers, so a
      `createReadStream` that rejects its options throws inside the
      `fs.access` callback before anything is sent. Without a Range header
      `res.download` of a directory ends in EISDIR, on which Express's
      `sendFile` calls `next()`; with one, the stream's read of the
      directory fails. */
  function FileGet(fs: FileSystem, cfg: Config, filename: string, range: Option<string>): Outcome<Download> {
    var filePath := Join(cfg.workingDir, filename);
    if filePath !in fs then Responded(Json(NodeUtils.JsonReply("failed", "File not found", None)))
    else if range.Some? && range.value != "" then
      if fs[filePath].Dir? then Threw("EISDIR")
      else
        var data := fs[filePath].data;
        var h := range.value;
        match ReadStream(data, RangeStart(h), RangeEnd(h, |data|))
        case Threw(e) => Threw(e)
        case Responded(bytes) => Responded(Partial(206, ContentRange(h, |data|), ChunkSize(h, |data|), bytes))
    else if fs[filePath].Dir? then Responded(PassedOn)
    else Responded(Whole(fs[filePath].data))
  }

  /** A missing file answers 400 "File not found"; without a Range header the
      whole file is sent, and a directory is passed on to `next()`. */
  lemma GetMissingOrWhole(fs: FileSystem, cfg: Config, filename: string, range: Option<string>)
    ensures Join(cfg.workingDir, filename) !in fs ==>
      FileGet(fs, cfg, filename, range) == Responded(Json(ApiReply(400, "failed", "File not found", None)))
    ensures var p := Join(cfg.workingDir, filename);
      p in fs && fs[p].File? && (range.None? || range.value == "") ==> FileGet(fs, cfg, filename, range) == Responded(Whole(fs[p].data))
    ensures var p := Join(cfg.workingDir, filename);
      p in fs && fs[p].Dir? && (range.None? || range.value == "") ==> FileGet(fs, cfg, filename, range) == Responded(PassedOn)
  {
  }

  /** With a Range header on a file there is no 416: the handler answers 206
      exactly when `createReadStream` accepts start and end, with the stream's
      bytes, and throws otherwise. */
  lemma GetRangeAlways206(fs: FileSystem, cfg: Config, filename: string, h: string)
    requires var p := Join(cfg.workingDir, filename); p in fs && fs[p].File? && h != ""
    ensures var data := fs[Join(cfg.workingDir, filename)].data;
      var d := FileGet(fs, cfg, filename, Some(h));
      var stream := ReadStream(data, RangeStart(h), RangeEnd(h, |data|));
      (d.Responded? <==> stream.Responded?)
      && (d.Responded? ==> d.reply == Partial(206, ContentRange(h, |data|), ChunkSize(h, |data|), stream.reply))
      && (d.Threw? ==> d.exception == stream.exception)
  {
  }

  lemma RangePartsOf(a: string, b: string)
    requires '-' !in a && '-' !in b
    ensures RangeParts("bytes=" + a + "-" + b) == [a, b]
  {
    var h := "bytes=" + a + "-" + b;
    assert StartsWith(h, "bytes=");
    ReplaceFirstAtStart(h, "bytes=", "");
    assert h[|"bytes="|..] == a + ['-'] + b;
    assert ReplaceFirstText(h, "bytes=", "") == a + ['-'] + b;
    SplitCons(a, '-', b);
    SplitNone(b, '-');
  }

  /** How `bytes=<a>-<b>` is read, in terms of its two pieces. */
  lemma RangeOfPieces(a: string, b: string, size: nat)
    requires '-' !in a && '-' !in b
    ensures var h := "bytes=" + a + "-" + b;
      var chunkEnd := JsParseInt(a).Plus(MAX_CHUNK - 1);
      RangeStart(h) == JsParseInt(a)
      && RangeEnd(h, size) == (if b != "" then JsMin(JsParseInt(b), chunkEnd) else JsMin(Num(size - 1), chunkEnd))
  {
    RangePartsOf(a, b);
  }

  lemma ParseNat(n: nat)
    ensures JsParseInt(NatToString(n)) == Num(n) && '-' !in NatToString(n)
  {
  }

  /** `bytes=<s>-<e>`: start s, end the asked end capped at the chunk, and
      Content-Length end - start + 1, whatever the file's size. */
  lemma RangeArithmetic(s: nat, e: nat, size: nat)
    ensures var h := "bytes=" + NatToString(s) + "-" + NatToString(e);
      var end := if e <= s + MAX_CHUNK - 1 then e else s + MAX_CHUNK - 1;
      RangeStart(h) == Num(s) && RangeEnd(h, size) == Num(end) && ChunkSize(h, size) == Num(end - s + 1)
  {
    var h := "bytes=" + NatToString(s) + "-" + NatToString(e);
    var end := if e <= s + MAX_CHUNK - 1 then e else s + MAX_CHUNK - 1;
    RangeOfNumbers(s, e, size);
    RangeCapped(h, size, s, e);
  }

  /** An asked end past the chunk is cut to the chunk's last byte. */
  lemma RangeCapped(h: string, size: nat, s: nat, e: nat)
    requires RangeStart(h) == Num(s) && RangeEnd(h, size) == JsMin(Num(e), Num(s).Plus(MAX_CHUNK - 1))
    ensures var end := if e <= s + MAX_CHUNK - 1 then e else s + MAX_CHUNK - 1;
      RangeEnd(h, size) == Num(end) && ChunkSize(h, size) == Num(end - s + 1)
  {
    var end := if e <= s + MAX_CHUNK - 1 then e else s + MAX_CHUNK - 1;
    RangeLength(h, size, s, end);
  }

  lemma RangeOfNumbers(s: nat, e: nat, size: nat)
    ensures var h := "bytes=" + NatToString(s) + "-" + NatToString(e);
      RangeStart(h) == Num(s) && RangeEnd(h, size) == JsMin(Num(e), Num(s).Plus(MAX_CHUNK - 1))
  {
    ParseNat(s);
    ParseNat(e);
    RangeOfPieces(NatToString(s), NatToString(e), size);
  }

  lemma RangeLength(h: string, size: nat, s: int, end: int)
    requires RangeStart(h) == Num(s) && RangeEnd(h, size) == Num(end)
    ensures ChunkSize(h, size) == Num(end - s + 1)
  {
    assert ChunkSize(h, size) == Length(Num(s), Num(end));
    assert Length(Num(s), Num(end)) == Num(end - s + 1);
  }

  /** `bytes=<s>-`: the end is the last byte, capped at the chunk. */
  lemma RangeOpenEnded(s: nat, size: nat)
    ensures var h := "bytes=" + NatToString(s) + "-";
      var end := if size - 1 <= s + MAX_CHUNK - 1 then size - 1 else s + MAX_CHUNK - 1;
      RangeStart(h) == Num(s) && RangeEnd(h, size) == Num(end)
  {
    ParseNat(s);
    RangeOfPieces(NatToString(s), "", size);
    assert "bytes=" + NatToString(s) + "-" + "" == "bytes=" + NatToString(s) + "-";
  }

  /** An explicit end is not clamped to the file: past the end, Content-Length promises more bytes than the stream has. */
  lemma RangeEndNotClamped(data: seq<byte>, e: nat)
    requires |data| <= e < MAX_CHUNK - 1
    ensures var h := "bytes=" + NatToString(0) + "-" + NatToString(e);
      ChunkSize(h, |data|) == Num(e + 1)
      && ReadStream(data, RangeStart(h), RangeEnd(h, |data|)) == Responded(data)
  {
    var h := "bytes=" + NatToString(0) + "-" + NatToString(e);
    assert RangeStart(h) == Num(0) && RangeEnd(h, |data|) == Num(e) && ChunkSize(h, |data|) == Num(e + 1) by {
      RangeArithmetic(0, e, |data|);
    }
    assert data[0..|data|] == data;
  }

  /** `bytes=<s>-` with s at or past the end of the file: the end is the last
      byte, before the start, so `createReadStream` throws and nothing is sent. */
  lemma RangeStartPastEnd(fs: FileSystem, cfg: Config, filename: string, s: nat)
    requires var p := Join(cfg.workingDir, filename); p in fs && fs[p].File? && s >= |fs[p].data|
    ensures FileGet(fs, cfg, filename, Some("bytes=" + NatToString(s) + "-")) == Threw("ERR_OUT_OF_RANGE")
  {
    var data := fs[Join(cfg.workingDir, filename)].data;
    RangeOpenEnded(s, |data|);
    GetRangeAlways206(fs, cfg, filename, "bytes=" + NatToString(s) + "-");
  }

  /** `bytes=<s>-<e>` with the size <= s <= e: nothing is refused and nothing
      throws; the 206 promises end - s + 1 bytes and the stream sends none. */
  lemma RangePastEndEmpty(fs: FileSystem, cfg: Config, filename: string, s: nat, e: nat)
    requires var p := Join(cfg.workingDir, filename); p in fs && fs[p].File? && |fs[p].data| <= s <= e
    ensures var size := |fs[Join(cfg.workingDir, filename)].data|;
      var h := "bytes=" + NatToString(s) + "-" + NatToString(e);
      var end := if e <= s + MAX_CHUNK - 1 then e else s + MAX_CHUNK - 1;
      FileGet(fs, cfg, filename, Some(h)) == Responded(Partial(206, ContentRange(h, size), Num(end - s + 1), []))
  {
    var data := fs[Join(cfg.workingDir, filename)].data;
    var h := "bytes=" + NatToString(s) + "-" + NatToString(e);
    RangeArithmetic(s, e, |data|);
    GetRangeAlways206(fs, cfg, filename, h);
  }

  /** A suffix range `bytes=-N` has no start: parseInt gives NaN, and so does
      everything after it; `createReadStream` throws and nothing is sent. */
  lemma RangeSuffixIsNaN(fs: FileSystem, cfg: Config, filename: string, n: nat)
    requires var p := Join(cfg.workingDir, filename); p in fs && fs[p].File?
    ensures var size := |fs[Join(cfg.workingDir, filename)].data|;
      var h := "bytes=-" + NatToString(n);
      RangeStart(h) == NaN && RangeEnd(h, size) == NaN && ChunkSize(h, size) == NaN
      && FileGet(fs, cfg, filename, Some(h)) == Threw("ERR_OUT_OF_RANGE")
  {
    var size := |fs[Join(cfg.workingDir, filename)].data|;
    var h := "bytes=-" + NatToString(n);
    assert RangeStart(h) == NaN && RangeEnd(h, size) == NaN by {
      ParseNat(n);
      RangeOfPieces("", NatToString(n), size);
      assert "bytes=" + "" == "bytes=";
      assert "bytes=" + "-" == "bytes=-";
      assert JsParseInt("") == NaN;
    }
    GetRangeAlways206(fs, cfg, filename, h);
  }

  // ------------------------------------------------------------------ check

  /** `path.join(workingDir, decodeURIComponent(dirname), filename)` with
      `dirname` defaulting to `''` only when absent. `decodeURIComponent`
      throws a URIError on a malformed escape, and `path.join` a TypeError on
      a filename that is not a string, absent included. */
  function CheckTarget(cfg: Config, body: map<string, JsValue>): Outcome<string> {
    var dirname := Field(body, "dirname");
    var filename := Field(body, "filename");
    var decoded := if dirname.Undefined? then Some("") else PercentDecode(ToText(dirname));
    if decoded.None? then Threw("URIError")
    else if !filename.Str? then Threw("TypeError")
    else Responded(Join(Join(cfg.workingDir, decoded.value), filename.s))
  }

  /** What `checkHandler` answers: an empty name, then an existing target, are refused. */
  function FileCheck(fs: FileSystem, cfg: Config, body: map<string, JsValue>): Outcome<ApiReply<()>> {
    match CheckTarget(cfg, body)
    case Threw(e) => Threw(e)
    case Responded(filePath) =>
      if !Truthy(Field(body, "filename")) then Responded(NodeUtils.JsonReply("failed", "No filename provided", None))
      else if filePath in fs then Responded(NodeUtils.JsonReply("failed", "File already exists", None))
      else Responded(NodeUtils.JsonReply("success", "File can be uploaded", None))
  }

  /** For a well-formed request: success exactly for a non-empty name whose
      target does not exist, a 400 otherwise; there is no overwrite option. */
  lemma CheckDecision(fs: FileSystem, cfg: Config, body: map<string, JsValue>)
    requires CheckTarget(cfg, body).Responded?
    ensures var r := FileCheck(fs, cfg, body).reply;
      var filename := Field(body, "filename").s;
      (r.code == 200 <==> filename != "" && CheckTarget(cfg, body).reply !in fs)
      && (filename == "" ==> r == ApiReply(400, "failed", "No filename provided", None))
      && (filename != "" && CheckTarget(cfg, body).reply in fs ==> r == ApiReply(400, "failed", "File already exists", None))
      && (r.code == 200 ==> r == ApiReply(200, "success", "File can be uploaded", None))
  {
  }

  /** An absent filename reaches `path.join` before the emptiness test, so the handler throws instead of answering. */
  lemma CheckAbsentFilename(fs: FileSystem, cfg: Config, body: map<string, JsValue>)
    requires "filename" !in body && ("dirname" !in body || body["dirname"] == Str(""))
    ensures FileCheck(fs, cfg, body) == Threw("TypeError")
  {
  }

  /** A malformed escape in the directory throws a URIError. */
  lemma CheckMalformedDirname(fs: FileSystem, cfg: Config, f: string)
    ensures FileCheck(fs, cfg, map["dirname" := Str("%zz"), "filename" := Str(f)]) == Threw("URIError")
  {
    MalformedEscape("");
    assert "%zz" + "" == "%zz";
  }

  /** The directory the web client escaped with `escapeFilename` is checked as the client named it. */
  lemma CheckEscapedDirname(cfg: Config, d: string, f: string)
    ensures CheckTarget(cfg, map["dirname" := Str(StaticUtils.EscapeFilename(d)), "filename" := Str(f)])
      == Responded(Join(Join(cfg.workingDir, d), f))
  {
    StaticUtils.EscapeRoundTrip(d);
  }
}
