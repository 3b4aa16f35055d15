/** The quickhub file endpoints: list a directory, check whether an upload
    may proceed, take in an uploaded file (copy it into place and tell the
    registered listener), and download a file whole or as one byte range of
    at most 8 MiB. Paths are the working directory joined with what the
    client sends; nothing confines them to it. */
module QuickhubFileController {
  import opened Text
  import opened Numbers
  import opened Files
  import opened Http
  import opened Listing
  import QuickhubFileUtils

  datatype Config = Config(workingDir: string, overwrite: bool)

  /** A path as the client sees it: relative to the working directory. */
  function Relative(cfg: Config, p: string): string {
    QuickhubFileUtils.TrimFromBeginning(p, cfg.workingDir)
  }

  // ---------------------------------------------------------------- listing

  function ListTarget(cfg: Config, body: map<string, string>): string {
    Join(cfg.workingDir, Get(body, "dirname").GetOr(""))
  }

  /** The synthetic parent entry, present unless the listed path is the
      working directory itself. */
  function DotDot(cfg: Config, full: string): seq<FileInfo> {
    if full != cfg.workingDir then [FileInfo("..", Relative(cfg, Parent(full).GetOr(cfg.workingDir)), Directory, Unset)]
    else []
  }

  /** The entry for one listed name: directories carry no size. */
  function EntryFor(fs: FileSystem, cfg: Config, dir: string, name: string): FileInfo {
    var child := Join(dir, name);
    var kind := KindAt(fs, child);
    FileInfo(name, Relative(cfg, child), kind, if kind == Directory then Unset else Bytes(LengthAt(fs, child)))
  }

  function EntryMaker(fs: FileSystem, cfg: Config, dir: string): string -> FileInfo {
    name => EntryFor(fs, cfg, dir, name)
  }

  /** `listFiles()` with hidden names dropped; a non-directory lists nothing. */
  function Listed(fs: FileSystem, full: string): seq<string> {
    if full in fs && fs[full].Dir? then Visible(fs[full].names) else []
  }

  /** What `handleFileList` answers. */
  function FileList(fs: FileSystem, cfg: Config, body: map<string, string>): ApiReply<ListData> {
    var full := ListTarget(cfg, body);
    var dot := DotDot(cfg, full);
    if full !in fs then ApiReply(200, "failed", "Error listing files", Some(ListData(Relative(cfg, full), dot)))
    else
      var names := Listed(fs, full);
      var entries := MapEntries(names, EntryMaker(fs, cfg, full));
      ApiReply(200, "success", "Files listed successfully", Some(ListData(Relative(cfg, full), dot + entries)))
  }

  /** `handleFileList`: the parent entry first, then one entry per listed
      name, appended in listing order. */
  method HandleFileList(fs: FileSystem, cfg: Config, body: map<string, string>) returns (reply: ApiReply<ListData>)
    ensures reply == FileList(fs, cfg, body)
  {
    var full := ListTarget(cfg, body);
    var fileInfos: seq<FileInfo> := [];
    if full != cfg.workingDir {
      fileInfos := fileInfos + [FileInfo("..", Relative(cfg, Parent(full).GetOr(cfg.workingDir)), Directory, Unset)];
    }
    ghost var dot := fileInfos;
    assert dot == DotDot(cfg, full);
    if full !in fs {
      return ApiReply(200, "failed", "Error listing files", Some(ListData(Relative(cfg, full), fileInfos)));
    }
    fileInfos := AppendEntries(fileInfos, Listed(fs, full), EntryMaker(fs, cfg, full));
    reply := ApiReply(200, "success", "Files listed successfully", Some(ListData(Relative(cfg, full), fileInfos)));
  }

  /** The `..` entry comes first exactly when the listed path is not the
      working directory, whether or not the directory exists. */
  lemma ListParentFirst(fs: FileSystem, cfg: Config, body: map<string, string>)
    ensures var files := FileList(fs, cfg, body).data.value.files;
      (|files| > 0 && files[0].name == "..") <==> ListTarget(cfg, body) != cfg.workingDir
  {
    var full := ListTarget(cfg, body);
    var files := FileList(fs, cfg, body).data.value.files;
    if full == cfg.workingDir && full in fs {
      NoParentAmongEntries(fs, cfg, full);
      assert files == MapEntries(Listed(fs, full), EntryMaker(fs, cfg, full));
    }
  }

  /** No listed entry is called `..`, since hidden names are dropped. */
  lemma NoParentAmongEntries(fs: FileSystem, cfg: Config, full: string)
    ensures var entries := MapEntries(Listed(fs, full), EntryMaker(fs, cfg, full));
      forall i :: 0 <= i < |entries| ==> entries[i].name != ".."
  {
    var names := Listed(fs, full);
    assert StartsWith("..", ".");
    forall i | 0 <= i < |names| ensures names[i] != ".." {
      assert names[i] in names;
    }
  }

  /** A missing directory is reported as a failure carrying only the optional `..` entry. */
  lemma ListMissing(fs: FileSystem, cfg: Config, body: map<string, string>)
    requires ListTarget(cfg, body) !in fs
    ensures var r := FileList(fs, cfg, body);
      r.code == 200 && r.status == "failed" && r.message == "Error listing files"
      && r.data.value.files == DotDot(cfg, ListTarget(cfg, body)) && |r.data.value.files| <= 1
  {
  }

  /** For an existing directory: the optional `..`, then the entries of the listed names. */
  lemma ListEntries(fs: FileSystem, cfg: Config, body: map<string, string>)
    requires ListTarget(cfg, body) in fs && fs[ListTarget(cfg, body)].Dir?
    ensures var full := ListTarget(cfg, body);
      var r := FileList(fs, cfg, body);
      r.status == "success" && r.message == "Files listed successfully"
      && r.data.value.files == DotDot(cfg, full) + MapEntries(Visible(fs[full].names), EntryMaker(fs, cfg, full))
  {
  }

  /** One entry per non-hidden name, in listing order, with no size for
      directories and the byte length for everything else. */
  lemma EntryShapes(fs: FileSystem, cfg: Config, full: string)
    requires full in fs && fs[full].Dir?
    ensures var names := Visible(fs[full].names);
      var entries := MapEntries(names, EntryMaker(fs, cfg, full));
      |entries| == |names|
      && (forall i :: 0 <= i < |entries| ==> entries[i].name == names[i] && !Hidden(entries[i].name))
      && (forall i :: 0 <= i < |entries| ==>
            (entries[i].kind == Directory <==> Join(full, names[i]) in fs && fs[Join(full, names[i])].Dir?)
            && (entries[i].kind == Directory ==> entries[i].size == Unset)
            && (entries[i].kind == RegularFile ==> entries[i].size == Bytes(LengthAt(fs, Join(full, names[i])))))
  {
    var names := Visible(fs[full].names);
    forall i | 0 <= i < |names| ensures !Hidden(names[i]) {
      assert names[i] in names;
    }
  }

  /** A regular file at the listed path lists as success with nothing but `..`. */
  lemma ListRegularFile(fs: FileSystem, cfg: Config, body: map<string, string>)
    requires ListTarget(cfg, body) in fs && fs[ListTarget(cfg, body)].File?
    ensures FileList(fs, cfg, body).status == "success"
    ensures FileList(fs, cfg, body).data.value.files == DotDot(cfg, ListTarget(cfg, body))
  {
  }

  // ------------------------------------------------------------------ check

  function CheckTarget(cfg: Config, body: map<string, string>): string {
    Join(Join(cfg.workingDir, Get(body, "dirname").GetOr("")), Get(body, "filename").GetOr(""))
  }

  /** What `handleFileCheck` answers. */
  function FileCheck(fs: FileSystem, cfg: Config, body: map<string, string>): ApiReply<()> {
    var filename := Get(body, "filename").GetOr("");
    if IsBlank(filename) then ApiReply(400, "failed", "No filename provided", None)
    else if !cfg.overwrite && CheckTarget(cfg, body) in fs then ApiReply(200, "failed", "File already exists", None)
    else ApiReply(200, "success", "File can be uploaded", None)
  }

  /** The check admits an upload exactly when the name is not blank and the
      target is free or may be overwritten; a blank name is a 400, every
      other answer a 200. */
  lemma CheckDecision(fs: FileSystem, cfg: Config, body: map<string, string>)
    ensures var r := FileCheck(fs, cfg, body);
      var filename := Get(body, "filename").GetOr("");
      (r.status == "success" <==> !IsBlank(filename) && (cfg.overwrite || CheckTarget(cfg, body) !in fs))
      && (r.code == 400 <==> IsBlank(filename))
      && (r.status == "failed" && !IsBlank(filename) ==> r.message == "File already exists")
      && (r.status == "success" ==> r.message == "File can be uploaded")
  {
  }

  /** With overwriting allowed every non-blank name passes. */
  lemma CheckOverwriteAdmits(fs: FileSystem, cfg: Config, body: map<string, string>)
    requires cfg.overwrite && !IsBlank(Get(body, "filename").GetOr(""))
    ensures FileCheck(fs, cfg, body) == ApiReply(200, "success", "File can be uploaded", None)
  {
  }

  // ----------------------------------------------------------------- upload

  /** The `x-file-metadata` header: absent, not a JSON object of strings, or one. */
  datatype Metadata = Absent | Unparsable | Parsed(fields: map<string, string>)

  /** Anything but a parsed object counts as an empty map. */
  function MetadataFields(m: Metadata): map<string, string> {
    if m.Parsed? then m.fields else map[]
  }

  function UploadDir(cfg: Config, fields: map<string, string>): string {
    Join(cfg.workingDir, Get(fields, "dirname").GetOr(""))
  }

  /** What `handleFileAdd` does: the new filesystem, the answer, and the file
      handed to the listener, if any. */
  datatype AddEffect = AddEffect(fs: FileSystem, outcome: Outcome<ApiReply<()>>, received: Option<string>)

  /** The copy step: the target's parent made, then the temporary upload
      copied over the target with the configured overwrite policy. */
  function AddCopy(fs: FileSystem, cfg: Config, fields: map<string, string>, filename: string, temp: string): CopyResult {
    var target := Join(UploadDir(cfg, fields), filename);
    CopyTo(MkdirsParent(fs, target), temp, target, cfg.overwrite)
  }

  /** The units `formatFileSize` can name: B, KB, MB, GB and TB. */
  const UNIT_COUNT: nat := 5

  /** `floor(log(size) / log(1024))` for a positive size: the power of 1024
      `formatFileSize` picks its unit by. */
  function UnitIndex(size: nat): nat
    decreases size
  {
    if size < 1024 then 0 else 1 + UnitIndex(size / 1024)
  }

  /** `formatFileSize` indexes its five units with the unit index, so from
      1024^5 bytes on it throws; this is the exception's message. */
  function SizeFormatError(size: nat): Option<string> {
    if size != 0 && UnitIndex(size) >= UNIT_COUNT
    then Some("Index " + NatToString(UnitIndex(size)) + " out of bounds for length " + NatToString(UNIT_COUNT))
    else None
  }

  /** The unit index is the largest power of 1024 that does not pass the size. */
  lemma {:induction false} UnitIndexBounds(size: nat)
    requires size >= 1
    ensures Power1024(UnitIndex(size)) <= size < Power1024(UnitIndex(size) + 1)
    decreases size
  {
    if size >= 1024 {
      UnitIndexBounds(size / 1024);
    }
  }

  function Power1024(k: nat): nat {
    if k == 0 then 1 else 1024 * Power1024(k - 1)
  }

  /** `formatFileSize` throws exactly from 1024^5 bytes on. */
  lemma SizeFormatFails(size: nat)
    ensures SizeFormatError(size).Some? <==> size >= Power1024(UNIT_COUNT)
  {
    if size >= 1 {
      UnitIndexBounds(size);
      if UnitIndex(size) >= UNIT_COUNT {
        PowerMonotone(UNIT_COUNT, UnitIndex(size));
      } else {
        PowerMonotone(UnitIndex(size) + 1, UNIT_COUNT);
      }
    }
  }

  lemma {:induction false} PowerMonotone(j: nat, k: nat)
    requires j <= k
    ensures Power1024(j) <= Power1024(k)
    decreases k
  {
    if j < k {
      PowerMonotone(j, k - 1);
    }
  }

  /** `handleFileAdd` as a function of the filesystem it starts from: the
      upload directory is made first; a missing file name makes the path
      lookup throw; a failed copy is a 500 and tells no one; after a good
      copy the stored length is formatted for the log, which throws for a
      file of 1024^5 bytes or more, giving a 500 that keeps the copy and
      tells no one; otherwise the listener hears of the target and the
      answer is success. */
  function FileAdd(fs: FileSystem, cfg: Config, metadata: Metadata, temp: Option<string>): AddEffect {
    var fields := MetadataFields(metadata);
    var made := Mkdirs(fs, UploadDir(cfg, fields));
    match Get(fields, "filename")
    case None => AddEffect(made, Threw("NullPointerException"), None)
    case Some(filename) =>
      var target := Join(UploadDir(cfg, fields), filename);
      var source := temp.GetOr("");
      var c := AddCopy(made, cfg, fields, filename, source);
      match c.error
      case Some(e) =>
        AddEffect(c.fs, Responded(ApiReply(500, "failed", "Failed to handle file: " + CopyErrorMessage(e, source, target), None)), None)
      case None =>
        match SizeFormatError(LengthAt(c.fs, target))
        case Some(m) => AddEffect(c.fs, Responded(ApiReply(500, "failed", "Failed to handle file: " + m, None)), None)
        case None => AddEffect(c.fs, Responded(ApiReply(200, "success", "Files uploaded", None)), Some(target))
  }

  /** `handleFileAdd` on the one mutable filesystem, with an optional listener. */
  method HandleFileAdd(disk: Disk, listener: FileReceivedListener?, cfg: Config, metadata: Metadata, temp: Option<string>)
    returns (outcome: Outcome<ApiReply<()>>)
    modifies disk, listener
    ensures var a := FileAdd(old(disk.nodes), cfg, metadata, temp);
      disk.nodes == a.fs && outcome == a.outcome
      && (listener != null ==> listener.received == old(listener.received) + (if a.received.Some? then [a.received.value] else []))
  {
    var fields := MetadataFields(metadata);
    var uploadDir := UploadDir(cfg, fields);
    disk.nodes := Mkdirs(disk.nodes, uploadDir);
    var filename := Get(fields, "filename");
    if filename.None? {
      return Threw("NullPointerException");
    }
    var target := Join(uploadDir, filename.value);
    var source := temp.GetOr("");
    var c := CopyTo(MkdirsParent(disk.nodes, target), source, target, cfg.overwrite);
    disk.nodes := c.fs;
    if c.error.Some? {
      return Responded(ApiReply(500, "failed", "Failed to handle file: " + CopyErrorMessage(c.error.value, source, target), None));
    }
    var stats := LengthAt(disk.nodes, target);
    var formatError := SizeFormatError(stats);
    if formatError.Some? {
      return Responded(ApiReply(500, "failed", "Failed to handle file: " + formatError.value, None));
    }
    if listener != null {
      listener.OnFileReceived(target);
    }
    outcome := Responded(ApiReply(200, "success", "Files uploaded", None));
  }

  /** Metadata that does not parse is an empty map, so there is no file name
      and the handler throws after making the working directory. */
  lemma AddUnparsableThrows(fs: FileSystem, cfg: Config, temp: Option<string>)
    ensures FileAdd(fs, cfg, Unparsable, temp) == FileAdd(fs, cfg, Parsed(map[]), temp)
    ensures FileAdd(fs, cfg, Unparsable, temp) == AddEffect(Mkdirs(fs, cfg.workingDir), Threw("NullPointerException"), None)
  {
  }

  /** The listener hears of the target exactly when the upload succeeded. */
  lemma AddListenerOnSuccess(fs: FileSystem, cfg: Config, metadata: Metadata, temp: Option<string>)
    ensures var a := FileAdd(fs, cfg, metadata, temp);
      var fields := MetadataFields(metadata);
      (a.received.Some? <==> a.outcome == Responded(ApiReply(200, "success", "Files uploaded", None)))
      && (a.received.Some? ==> "filename" in fields && a.received.value == Join(UploadDir(cfg, fields), fields["filename"]))
      && (a.outcome.Responded? && a.outcome.reply.code == 500 ==>
            a.received.None? && StartsWith(a.outcome.reply.message, "Failed to handle file: "))
  {
    var a := FileAdd(fs, cfg, metadata, temp);
    if a.outcome.Responded? && a.outcome.reply.code == 500 {
      var m := a.outcome.reply.message;
      assert m[..|"Failed to handle file: "|] == "Failed to handle file: ";
    }
  }

  /** Without overwriting, an existing target is left alone and the answer is a 500. */
  lemma AddRefusesExisting(fs: FileSystem, cfg: Config, fields: map<string, string>, temp: string)
    requires !cfg.overwrite && "filename" in fields
    requires temp in fs && Join(UploadDir(cfg, fields), fields["filename"]) in fs
    ensures var a := FileAdd(fs, cfg, Parsed(fields), Some(temp));
      a.received.None? && a.outcome.Responded? && a.outcome.reply.code == 500
      && a.fs == MkdirsParent(Mkdirs(fs, UploadDir(cfg, fields)), Join(UploadDir(cfg, fields), fields["filename"]))
  {
  }

  /** A successful upload of a regular temporary file leaves its bytes at the target. */
  lemma AddStoresBytes(fs: FileSystem, cfg: Config, metadata: Metadata, temp: string)
    requires temp in fs && fs[temp].File?
    requires FileAdd(fs, cfg, metadata, Some(temp)).received.Some?
    ensures var a := FileAdd(fs, cfg, metadata, Some(temp));
      a.received.value in a.fs && a.fs[a.received.value] == fs[temp]
  {
    var fields := MetadataFields(metadata);
    var made := Mkdirs(fs, UploadDir(cfg, fields));
    var filename := fields["filename"];
    var target := Join(UploadDir(cfg, fields), filename);
    var before := MkdirsParent(made, target);
    assert made[temp] == fs[temp];
    assert before[temp] == fs[temp] by {
      match Parent(target)
      case None =>
      case Some(par) =>
    }
    CopyCopiesBytes(before, temp, target, cfg.overwrite);
  }

  /** A copy that succeeds with a temporary file of 1024^5 bytes or more is
      kept, but formatting its size throws: the answer is a 500 and the
      listener is not told. */
  lemma AddHugeFileRefused(fs: FileSystem, cfg: Config, fields: map<string, string>, temp: string)
    requires "filename" in fields && temp in fs && fs[temp].File? && |fs[temp].data| >= Power1024(UNIT_COUNT)
    requires AddCopy(Mkdirs(fs, UploadDir(cfg, fields)), cfg, fields, fields["filename"], temp).error.None?
    ensures var a := FileAdd(fs, cfg, Parsed(fields), Some(temp));
      var target := Join(UploadDir(cfg, fields), fields["filename"]);
      a.received.None? && a.outcome.Responded? && a.outcome.reply.code == 500
      && StartsWith(a.outcome.reply.message, "Failed to handle file: Index ")
      && target in a.fs && a.fs[target] == fs[temp]
  {
    var target := Join(UploadDir(cfg, fields), fields["filename"]);
    var c := AddCopy(Mkdirs(fs, UploadDir(cfg, fields)), cfg, fields, fields["filename"], temp);
    CopyStoresTemp(fs, cfg, fields, temp);
    assert LengthAt(c.fs, target) == |fs[temp].data|;
    SizeFormatFails(|fs[temp].data|);
    AddFormatOutcome(fs, cfg, fields, temp);
    FormatErrorMessage(|fs[temp].data|);
  }

  /** The 500's message names the index that passed the unit table. */
  lemma FormatErrorMessage(n: nat)
    requires SizeFormatError(n).Some?
    ensures StartsWith("Failed to handle file: " + SizeFormatError(n).value, "Failed to handle file: Index ")
  {
    var rest := NatToString(UnitIndex(n)) + " out of bounds for length " + NatToString(UNIT_COUNT);
    assert SizeFormatError(n).value == "Index " + rest;
    PrefixJoined("Failed to handle file: ", "Index ", "Index " + rest);
  }

  /** After a good copy, a size that cannot be formatted gives the 500. */
  lemma AddFormatOutcome(fs: FileSystem, cfg: Config, fields: map<string, string>, temp: string)
    requires "filename" in fields
    requires AddCopy(Mkdirs(fs, UploadDir(cfg, fields)), cfg, fields, fields["filename"], temp).error.None?
    ensures var target := Join(UploadDir(cfg, fields), fields["filename"]);
      var c := AddCopy(Mkdirs(fs, UploadDir(cfg, fields)), cfg, fields, fields["filename"], temp);
      SizeFormatError(LengthAt(c.fs, target)).Some? ==>
      FileAdd(fs, cfg, Parsed(fields), Some(temp))
        == AddEffect(c.fs, Responded(ApiReply(500, "failed", "Failed to handle file: " + SizeFormatError(LengthAt(c.fs, target)).value, None)), None)
  {
  }

  /** After a successful upload copy the target holds the temporary file's bytes. */
  lemma CopyStoresTemp(fs: FileSystem, cfg: Config, fields: map<string, string>, temp: string)
    requires "filename" in fields && temp in fs && fs[temp].File?
    requires AddCopy(Mkdirs(fs, UploadDir(cfg, fields)), cfg, fields, fields["filename"], temp).error.None?
    ensures var c := AddCopy(Mkdirs(fs, UploadDir(cfg, fields)), cfg, fields, fields["filename"], temp);
      var target := Join(UploadDir(cfg, fields), fields["filename"]);
      target in c.fs && c.fs[target] == fs[temp]
  {
    var made := Mkdirs(fs, UploadDir(cfg, fields));
    var target := Join(UploadDir(cfg, fields), fields["filename"]);
    var before := MkdirsParent(made, target);
    assert made[temp] == fs[temp];
    assert before[temp] == fs[temp] by {
      match Parent(target)
      case None =>
      case Some(par) =>
    }
    CopyCopiesBytes(before, temp, target, cfg.overwrite);
  }

  /** A prefix `p` of `m` carries over behind a common head `h`. */
  lemma PrefixJoined(h: string, p: string, m: string)
    requires |p| <= |m| && m[..|p|] == p
    ensures StartsWith(h + m, h + p)
  {
    assert (h + m)[..|h + p|] == h + p;
  }

  lemma {:induction false} AncestorShorter(k: string, p: string)
    requires AncestorOrSelf(k, p)
    ensures |k| <= |p|
    decreases |p|
  {
    if k != p {
      AncestorShorter(k, Parent(p).value);
    }
  }

  /** A target the check admitted with overwriting off is not refused as
      existing by the upload that follows on the same filesystem: making the
      directories above it never creates the target itself. */
  lemma CheckThenAdd(fs: FileSystem, cfg: Config, body: map<string, string>, temp: string)
    requires !IsBlank(Get(body, "filename").GetOr("")) && "filename" in body
    requires FileCheck(fs, cfg, body).status == "success"
    ensures var made := Mkdirs(fs, UploadDir(cfg, body));
      AddCopy(made, cfg, body, body["filename"], temp).error != Some(TargetExists)
  {
    var up := UploadDir(cfg, body);
    var filename := body["filename"];
    var target := Join(up, filename);
    assert target == CheckTarget(cfg, body);
    var made := Mkdirs(fs, up);
    if !cfg.overwrite {
      assert target !in fs by {
        CheckDecision(fs, cfg, body);
      }
      assert filename != "";
      assert |target| > |up|;
      MkdirsSparesLonger(fs, up, target);
      if Parent(target).Some? {
        MkdirsSparesLonger(made, Parent(target).value, target);
      }
      assert target !in MkdirsParent(made, target);
    }
  }

  /** `mkdirs` only creates the path and its ancestors, so a longer path stays absent. */
  lemma MkdirsSparesLonger(fs: FileSystem, p: string, k: string)
    requires k !in fs && |k| > |p|
    ensures k !in Mkdirs(fs, p)
  {
    if k in Mkdirs(fs, p) {
      AncestorShorter(k, p);
    }
  }

  // --------------------------------------------------------------- download

  const MAX_CHUNK: int := 8 * 1024 * 1024

  /** What the `Range` header asks for: a window or nothing satisfiable. */
  datatype RangeDecision = Unsatisfiable | Window(start: int, end: int)

  /** The pieces between `-` of the text after `bytes=`. */
  function RangeParts(header: string): (r: seq<string>)
    ensures |r| >= 1 && forall k :: 0 <= k < |r| ==> '-' !in r[k]
  {
    Split(SubstringAfter(header, "bytes="), '-')
  }

  /** The first piece as a Long, or 0 when it does not parse. */
  function RangeStart(header: string): int {
    ParseLong(RangeParts(header)[0]).GetOr(0)
  }

  function Min(a: int, b: int): int {
    if a <= b then a else b
  }

  /** The second piece as a Long capped at the chunk end, or the last byte
      capped at the chunk end; the chunk end wraps as a Long does. */
  function RangeEnd(header: string, len: nat): int {
    var parts := RangeParts(header);
    var chunkEnd := Wrap64(RangeStart(header) + MAX_CHUNK - 1);
    if |parts| > 1 && ParseLong(parts[1]).Some? then Min(ParseLong(parts[1]).value, chunkEnd)
    else Min(len - 1, chunkEnd)
  }

  /** The 416 test: a start or an end at or past the end of the file, or a start after the end. */
  function RangeWindow(header: string, len: nat): RangeDecision {
    var start := RangeStart(header);
    var end := RangeEnd(header, len);
    if start >= len || end >= len || start > end then Unsatisfiable else Window(start, end)
  }

  /** A served window lies inside the file and holds at most 8 MiB. */
  lemma RangeWindowBounds(header: string, len: nat)
    requires len <= LONG_MAX
    ensures var w := RangeWindow(header, len);
      w.Window? ==> 0 <= w.start <= w.end < len && w.end - w.start + 1 <= MAX_CHUNK
  {
    var parts := RangeParts(header);
    ParseLongNoMinus(parts[0]);
    var start := RangeStart(header);
    assert 0 <= start;
    if start < len {
      assert RangeStart(header) + MAX_CHUNK - 1 <= LONG_MAX || start > RangeEnd(header, len);
    }
  }

  lemma DigitsHaveNoMinus(s: string)
    requires AllDigits(s)
    ensures '-' !in s
  {
  }

  /** How a header `bytes=<a>-<b>` splits. */
  lemma RangePartsOf(a: string, b: string)
    requires '-' !in a && '-' !in b
    ensures RangeParts("bytes=" + a + "-" + b) == [a, b]
  {
    var h := "bytes=" + a + "-" + b;
    assert StartsWith(h, "bytes=");
    assert SubstringAfter(h, "bytes=") == a + ['-'] + b by {
      assert h[|"bytes="|..] == a + ['-'] + b;
    }
    SplitCons(a, '-', b);
    SplitNone(b, '-');
  }

  /** Where a header `bytes=<a>-<b>` starts and ends. */
  lemma RangeOfPieces(a: string, b: string, len: nat)
    requires '-' !in a && '-' !in b
    ensures var h := "bytes=" + a + "-" + b;
      var chunkEnd := Wrap64(ParseLong(a).GetOr(0) + MAX_CHUNK - 1);
      RangeStart(h) == ParseLong(a).GetOr(0)
      && RangeEnd(h, len) == (if ParseLong(b).Some? then Min(ParseLong(b).value, chunkEnd) else Min(len - 1, chunkEnd))
  {
    RangePartsOf(a, b);
  }

  /** `bytes=<s>-<e>` for a window inside the file of at most 8 MiB is served as asked. */
  lemma RangeServedAsAsked(s: nat, e: nat, len: nat)
    requires s <= e < len <= LONG_MAX && e - s < MAX_CHUNK && s + MAX_CHUNK - 1 <= LONG_MAX
    ensures RangeWindow("bytes=" + NatToString(s) + "-" + NatToString(e), len) == Window(s, e)
  {
    var h := "bytes=" + NatToString(s) + "-" + NatToString(e);
    assert RangeStart(h) == s && RangeEnd(h, len) == e by {
      DigitsHaveNoMinus(NatToString(s));
      DigitsHaveNoMinus(NatToString(e));
      RangeOfPieces(NatToString(s), NatToString(e), len);
      ParseLongNatToString(s);
      ParseLongNatToString(e);
    }
  }

  /** An explicit last byte at or past the end of the file is refused, not
      clamped to the last byte as section 2.1 of RFC 7233 prescribes. */
  lemma RangePastEndRefused(s: nat, e: nat, len: nat)
    requires s <= e && len <= e <= LONG_MAX && e - s < MAX_CHUNK
    ensures RangeWindow("bytes=" + NatToString(s) + "-" + NatToString(e), len) == Unsatisfiable
  {
    var h := "bytes=" + NatToString(s) + "-" + NatToString(e);
    var chunkEnd := Wrap64(s + MAX_CHUNK - 1);
    assert RangeStart(h) == s && RangeEnd(h, len) == Min(e, chunkEnd) by {
      DigitsHaveNoMinus(NatToString(s));
      DigitsHaveNoMinus(NatToString(e));
      RangeOfPieces(NatToString(s), NatToString(e), len);
      ParseLongNatToString(s);
      ParseLongNatToString(e);
    }
    PastEndArithmetic(s, e, len);
  }

  /** The end asked for is kept, or the chunk end wrapped below zero and falls before the start. */
  lemma PastEndArithmetic(s: nat, e: nat, len: nat)
    requires s <= e && len <= e <= LONG_MAX && e - s < MAX_CHUNK
    ensures var end := Min(e, Wrap64(s + MAX_CHUNK - 1)); end >= len || s > end
  {
    if s + MAX_CHUNK - 1 > LONG_MAX {
      WrapAboveMax(s + MAX_CHUNK - 1);
    }
  }

  /** `bytes=<s>-` reads from `s` to the end of the file or of the 8 MiB chunk. */
  lemma RangeOpenEnded(s: nat, len: nat)
    requires s < len <= LONG_MAX && s + MAX_CHUNK - 1 <= LONG_MAX
    ensures RangeWindow("bytes=" + NatToString(s) + "-", len) == Window(s, Min(len - 1, s + MAX_CHUNK - 1))
  {
    var h := "bytes=" + NatToString(s) + "-";
    assert RangeStart(h) == s && RangeEnd(h, len) == Min(len - 1, s + MAX_CHUNK - 1) by {
      DigitsHaveNoMinus(NatToString(s));
      RangeOfPieces(NatToString(s), "", len);
      assert h + "" == h;
      ParseLongNatToString(s);
    }
  }

  /** `bytes=<s>-` with s at or past the reported length is refused with a
      416, whatever the length: this is also what a directory gets. */
  lemma RangeStartPastLength(s: nat, len: nat)
    requires len <= s <= LONG_MAX
    ensures RangeWindow("bytes=" + NatToString(s) + "-", len) == Unsatisfiable
  {
    var h := "bytes=" + NatToString(s) + "-";
    assert RangeStart(h) == s by {
      DigitsHaveNoMinus(NatToString(s));
      RangeOfPieces(NatToString(s), "", len);
      assert h + "" == h;
      ParseLongNatToString(s);
    }
  }

  /** A suffix range `bytes=-<n>` (the last n bytes, in RFC 7233) is read as
      the bytes 0 to n from the start of the file. */
  lemma RangeSuffixFromStart(n: nat, len: nat)
    requires n < len <= LONG_MAX && n < MAX_CHUNK
    ensures RangeWindow("bytes=-" + NatToString(n), len) == Window(0, n)
  {
    var h := "bytes=-" + NatToString(n);
    assert RangeStart(h) == 0 && RangeEnd(h, len) == n by {
      DigitsHaveNoMinus(NatToString(n));
      RangeOfPieces("", NatToString(n), len);
      assert "bytes=" + "" == "bytes=";
      assert "bytes=" + "-" == "bytes=-";
      ParseLongNatToString(n);
    }
  }

  function ContentRange(start: int, end: int, len: int): string {
    "bytes " + IntToString(start) + "-" + IntToString(end) + "/" + IntToString(len)
  }

  /** What answering a range request on a file holding `data` means: a 416
      text reply, or a 206 carrying exactly the window's bytes with its
      Content-Range, Content-Length and Accept-Ranges headers. */
  predicate RangeServed(data: seq<byte>, header: string, reply: FileReply) {
    WindowServed(data, RangeWindow(header, |data|), reply)
  }

  /** The answer for a decided window. */
  predicate WindowServed(data: seq<byte>, w: RangeDecision, reply: FileReply) {
    match w
    case Unsatisfiable => reply == FileReply(416, Some(MIME_PLAINTEXT), [], TextBody("Invalid range"))
    case Window(s, e) =>
      0 <= s <= e < |data|
      && reply == FileReply(206, None,
           [("Content-Range", ContentRange(s, e, |data|)), ("Content-Length", IntToString(e - s + 1)), ("Accept-Ranges", "bytes")],
           ByteBody(data[s..e + 1]))
  }

  /** `seek(start)` then `readFully` into a fresh buffer of the window's length. */
  method ReadWindow(data: seq<byte>, start: int, end: int) returns (bytes: seq<byte>)
    requires 0 <= start <= end < |data|
    ensures bytes == data[start..end + 1]
  {
    var length := end - start + 1;
    var buffer := new byte[length];
    var i := 0;
    while i < length
      invariant 0 <= i <= length
      invariant forall k :: 0 <= k < i ==> buffer[k] == data[start + k]
    {
      buffer[i] := data[start + i];
      i := i + 1;
    }
    bytes := buffer[..];
  }

  /** `handleRangeRequest`: a 416 for an unsatisfiable window, else the
      window's bytes with the three range headers. */
  method HandleRangeRequest(data: seq<byte>, header: string) returns (reply: FileReply)
    requires |data| <= LONG_MAX
    ensures RangeServed(data, header, reply)
  {
    var w := RangeWindow(header, |data|);
    assert w.Window? ==> 0 <= w.start <= w.end < |data| by {
      RangeWindowBounds(header, |data|);
    }
    if w.Unsatisfiable? {
      reply := FileReply(416, Some(MIME_PLAINTEXT), [], TextBody("Invalid range"));
      assert WindowServed(data, w, reply);
      return;
    }
    var bytes := ReadWindow(data, w.start, w.end);
    reply := FileReply(206, None,
      [("Content-Range", ContentRange(w.start, w.end, |data|)), ("Content-Length", IntToString(w.end - w.start + 1)), ("Accept-Ranges", "bytes")],
      ByteBody(bytes));
    assert WindowServed(data, w, reply);
  }

  function DownloadTarget(cfg: Config, uri: string): string {
    Join(cfg.workingDir, RemovePrefix(uri, "/files/download/"))
  }

  /** `handleFileDownload`: a missing file is a 404; a file is sent whole
      without a Range header and as one window with it. A directory exists
      too, and `File.length()` reports the size the system gives it
      (`dirLength`): with a Range header it goes through the same 416 test,
      and only a window that passes reaches `RandomAccessFile`, which cannot
      open a directory; without one `FileInputStream` cannot either. */
  method HandleFileDownload(fs: FileSystem, cfg: Config, uri: string, range: Option<string>, dirLength: nat) returns (outcome: Outcome<FileReply>)
    requires forall p :: p in fs && fs[p].File? ==> |fs[p].data| <= LONG_MAX
    requires dirLength <= LONG_MAX
    ensures var file := DownloadTarget(cfg, uri);
      (file !in fs ==> outcome == Responded(FileReply(404, Some(MIME_PLAINTEXT), [], TextBody("File not found"))))
      && (file in fs && fs[file].Dir? && range.None? ==> outcome == Threw("FileNotFoundException"))
      && (file in fs && fs[file].Dir? && range.Some? ==>
            if RangeWindow(range.value, dirLength).Unsatisfiable?
            then outcome == Responded(FileReply(416, Some(MIME_PLAINTEXT), [], TextBody("Invalid range")))
            else outcome == Threw("FileNotFoundException"))
      && (file in fs && fs[file].File? && range.None? ==> outcome == Responded(FileReply(200, None, [], ByteBody(fs[file].data))))
      && (file in fs && fs[file].File? && range.Some? ==> outcome.Responded? && RangeServed(fs[file].data, range.value, outcome.reply))
  {
    var file := DownloadTarget(cfg, uri);
    if file !in fs {
      return Responded(FileReply(404, Some(MIME_PLAINTEXT), [], TextBody("File not found")));
    }
    match fs[file]
    case Dir(_) =>
      if range.Some? && RangeWindow(range.value, dirLength).Unsatisfiable? {
        outcome := Responded(FileReply(416, Some(MIME_PLAINTEXT), [], TextBody("Invalid range")));
      } else {
        outcome := Threw("FileNotFoundException");
      }
    case File(data) =>
      if range.Some? {
        var reply := HandleRangeRequest(data, range.value);
        outcome := Responded(reply);
      } else {
        outcome := Responded(FileReply(200, None, [], ByteBody(data)));
      }
  }
}
