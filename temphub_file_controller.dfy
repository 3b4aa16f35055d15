/** The temphub file endpoints, the older Kotlin server: the same listing
    as quickhub with the plain trim, a check that refuses every existing
    target, an upload that never overwrites and answers with the stored
    file's entry, and a download that always sends the whole file. */
module TemphubFileController {
  import opened Text
  import opened Files
  import opened Http
  import opened Listing
  import TemphubFileUtils

  datatype Config = Config(workingDir: string)

  function Relative(cfg: Config, p: string): string {
    TemphubFileUtils.TrimFromBeginning(p, cfg.workingDir)
  }

  // ---------------------------------------------------------------- listing

  function ListTarget(cfg: Config, body: map<string, string>): string {
    Join(cfg.workingDir, Get(body, "dirname").GetOr(""))
  }

  function DotDot(cfg: Config, full: string): seq<FileInfo> {
    if full != cfg.workingDir then [FileInfo("..", Relative(cfg, Parent(full).GetOr(cfg.workingDir)), Directory, Unset)]
    else []
  }

  function EntryFor(fs: FileSystem, cfg: Config, dir: string, name: string): FileInfo {
    var child := Join(dir, name);
    var kind := KindAt(fs, child);
    FileInfo(name, Relative(cfg, child), kind, if kind == Directory then Unset else Bytes(LengthAt(fs, child)))
  }

  function EntryMaker(fs: FileSystem, cfg: Config, dir: string): string -> FileInfo {
    name => EntryFor(fs, cfg, dir, name)
  }

  function Listed(fs: FileSystem, full: string): seq<string> {
    if full in fs && fs[full].Dir? then Visible(fs[full].names) else []
  }

  /** What `handleFileList` answers. */
  function FileList(fs: FileSystem, cfg: Config, body: map<string, string>): ApiReply<ListData> {
    var full := ListTarget(cfg, body);
    var dot := DotDot(cfg, full);
    if full !in fs then ApiReply(200, "failed", "Error listing files", Some(ListData(Relative(cfg, full), dot)))
    else ApiReply(200, "success", "Files listed successfully",
      Some(ListData(Relative(cfg, full), dot + MapEntries(Listed(fs, full), EntryMaker(fs, cfg, full)))))
  }

  /** `handleFileList`: the parent entry first, then one entry per listed name. */
  method HandleFileList(fs: FileSystem, cfg: Config, body: map<string, string>) returns (reply: ApiReply<ListData>)
    ensures reply == FileList(fs, cfg, body)
  {
    var full := ListTarget(cfg, body);
    var fileInfos: seq<FileInfo> := [];
    if full != cfg.workingDir {
      fileInfos := fileInfos + [FileInfo("..", Relative(cfg, Parent(full).GetOr(cfg.workingDir)), Directory, Unset)];
    }
    ghost var dot := fileInfos;
    assert dot == DotDot(cfg, full);
    if full !in fs {
      return ApiReply(200, "failed", "Error listing files", Some(ListData(Relative(cfg, full), fileInfos)));
    }
    fileInfos := AppendEntries(fileInfos, Listed(fs, full), EntryMaker(fs, cfg, full));
    reply := ApiReply(200, "success", "Files listed successfully", Some(ListData(Relative(cfg, full), fileInfos)));
  }

  /** `..` comes first exactly when the listed path is not the working
      directory; a missing directory is a failure carrying only that entry. */
  lemma ListParentFirst(fs: FileSystem, cfg: Config, body: map<string, string>)
    ensures var files := FileList(fs, cfg, body).data.value.files;
      (|files| > 0 && files[0].name == "..") <==> ListTarget(cfg, body) != cfg.workingDir
    ensures ListTarget(cfg, body) !in fs ==>
      FileList(fs, cfg, body) == ApiReply(200, "failed", "Error listing files",
        Some(ListData(Relative(cfg, ListTarget(cfg, body)), DotDot(cfg, ListTarget(cfg, body)))))
  {
    var full := ListTarget(cfg, body);
    var files := FileList(fs, cfg, body).data.value.files;
    if full == cfg.workingDir && full in fs {
      NoParentAmongEntries(fs, cfg, full);
      assert files == MapEntries(Listed(fs, full), EntryMaker(fs, cfg, full));
    }
  }

  /** No listed entry is called `..`, since hidden names are dropped. */
  lemma NoParentAmongEntries(fs: FileSystem, cfg: Config, full: string)
    ensures var entries := MapEntries(Listed(fs, full), EntryMaker(fs, cfg, full));
      forall i :: 0 <= i < |entries| ==> entries[i].name != ".."
  {
    var names := Listed(fs, full);
    assert StartsWith("..", ".");
    forall i | 0 <= i < |names| ensures names[i] != ".." {
      assert names[i] in names;
    }
  }

  /** For an existing directory: the optional `..`, then the entries of the listed names. */
  lemma ListEntries(fs: FileSystem, cfg: Config, body: map<string, string>)
    requires ListTarget(cfg, body) in fs && fs[ListTarget(cfg, body)].Dir?
    ensures var full := ListTarget(cfg, body);
      var r := FileList(fs, cfg, body);
      r.status == "success" && r.message == "Files listed successfully"
      && r.data.value.files == DotDot(cfg, full) + MapEntries(Visible(fs[full].names), EntryMaker(fs, cfg, full))
  {
  }

  /** The entries are the non-hidden names in listing order, directories without a size. */
  lemma EntryShapes(fs: FileSystem, cfg: Config, full: string)
    requires full in fs && fs[full].Dir?
    ensures var names := Visible(fs[full].names);
      var entries := MapEntries(names, EntryMaker(fs, cfg, full));
      |entries| == |names|
      && (forall i :: 0 <= i < |entries| ==> entries[i].name == names[i] && !Hidden(entries[i].name))
      && (forall i :: 0 <= i < |entries| ==>
            (entries[i].kind == Directory ==> entries[i].size == Unset)
            && (entries[i].kind == RegularFile ==> entries[i].size == Bytes(LengthAt(fs, Join(full, names[i])))))
  {
    var names := Visible(fs[full].names);
    forall i | 0 <= i < |names| ensures !Hidden(names[i]) {
      assert names[i] in names;
    }
  }

  // ------------------------------------------------------------------ check

  function CheckTarget(cfg: Config, body: map<string, string>): string {
    Join(Join(cfg.workingDir, Get(body, "dirname").GetOr("")), Get(body, "filename").GetOr(""))
  }

  /** What `handleFileCheck` answers; there is no overwrite option. */
  function FileCheck(fs: FileSystem, cfg: Config, body: map<string, string>): ApiReply<()> {
    var filename := Get(body, "filename").GetOr("");
    if IsBlank(filename) then ApiReply(400, "failed", "No filename provided", None)
    else if CheckTarget(cfg, body) in fs then ApiReply(200, "failed", "File already exists", None)
    else ApiReply(200, "success", "File can be uploaded", None)
  }

  /** Success exactly for a non-blank name whose target does not exist yet. */
  lemma CheckDecision(fs: FileSystem, cfg: Config, body: map<string, string>)
    ensures var r := FileCheck(fs, cfg, body);
      var filename := Get(body, "filename").GetOr("");
      (r.status == "success" <==> !IsBlank(filename) && CheckTarget(cfg, body) !in fs)
      && (r.code == 400 <==> IsBlank(filename))
      && (r.status == "failed" && !IsBlank(filename) ==> r.message == "File already exists")
  {
  }

  // ----------------------------------------------------------------- upload

  datatype Metadata = Absent | Unparsable | Parsed(fields: map<string, string>)

  function MetadataFields(m: Metadata): map<string, string> {
    if m.Parsed? then m.fields else map[]
  }

  function UploadDir(cfg: Config, fields: map<string, string>): string {
    Join(cfg.workingDir, Get(fields, "dirname").GetOr(""))
  }

  /** The entry an upload answers with: the target's name, its trimmed path
      and its length after the copy. */
  function StoredEntry(fs: FileSystem, cfg: Config, target: string): FileInfo {
    FileInfo(Name(target), Relative(cfg, target), RegularFile, Bytes(LengthAt(fs, target)))
  }

  /** The copy step: the target's parent made, then `tempFile.copyTo(targetFile)`, which never overwrites. */
  function AddCopy(fs: FileSystem, cfg: Config, fields: map<string, string>, filename: string, temp: string): CopyResult {
    var target := Join(UploadDir(cfg, fields), filename);
    CopyTo(MkdirsParent(fs, target), temp, target, false)
  }

  datatype AddEffect = AddEffect(fs: FileSystem, outcome: Outcome<ApiReply<seq<FileInfo>>>)

  /** `handleFileAdd` as a function of the filesystem it starts from: the
      upload directory is made; a missing name makes the path lookup throw;
      the temporary file is copied without overwriting; a failed copy is a
      500, a good one answers the stored file's entry. */
  function FileAdd(fs: FileSystem, cfg: Config, metadata: Metadata, temp: Option<string>): AddEffect {
    var fields := MetadataFields(metadata);
    var made := Mkdirs(fs, UploadDir(cfg, fields));
    match Get(fields, "filename")
    case None => AddEffect(made, Threw("NullPointerException"))
    case Some(filename) =>
      var target := Join(UploadDir(cfg, fields), filename);
      var source := temp.GetOr("");
      var c := AddCopy(made, cfg, fields, filename, source);
      match c.error
      case Some(e) =>
        AddEffect(c.fs, Responded(ApiReply(500, "failed", "Failed to handle file: " + CopyErrorMessage(e, source, target), None)))
      case None =>
        AddEffect(c.fs, Responded(ApiReply(200, "success", "Files uploaded successfully", Some([StoredEntry(c.fs, cfg, target)]))))
  }

  method HandleFileAdd(disk: Disk, cfg: Config, metadata: Metadata, temp: Option<string>)
    returns (outcome: Outcome<ApiReply<seq<FileInfo>>>)
    modifies disk
    ensures var a := FileAdd(old(disk.nodes), cfg, metadata, temp);
      disk.nodes == a.fs && outcome == a.outcome
  {
    ghost var a := FileAdd(disk.nodes, cfg, metadata, temp);
    var fields := MetadataFields(metadata);
    var uploadDir := UploadDir(cfg, fields);
    disk.nodes := Mkdirs(disk.nodes, uploadDir);
    var filename := Get(fields, "filename");
    if filename.None? {
      return Threw("NullPointerException");
    }
    var target := Join(uploadDir, filename.value);
    var source := temp.GetOr("");
    var files: seq<FileInfo> := [];
    var c := AddCopy(disk.nodes, cfg, fields, filename.value, source);
    assert a.fs == c.fs;
    disk.nodes := c.fs;
    if c.error.Some? {
      return Responded(ApiReply(500, "failed", "Failed to handle file: " + CopyErrorMessage(c.error.value, source, target), None));
    }
    files := files + [StoredEntry(disk.nodes, cfg, target)];
    assert files == [StoredEntry(c.fs, cfg, target)];
    outcome := Responded(ApiReply(200, "success", "Files uploaded successfully", Some(files)));
  }

  /** An existing target is never replaced: the copy refuses it and the
      answer is a 500 naming both files. */
  lemma AddRefusesExisting(fs: FileSystem, cfg: Config, fields: map<string, string>, temp: string)
    requires "filename" in fields
    requires temp in fs && Join(UploadDir(cfg, fields), fields["filename"]) in fs
    ensures var target := Join(UploadDir(cfg, fields), fields["filename"]);
      var a := FileAdd(fs, cfg, Parsed(fields), Some(temp));
      a.outcome == Responded(ApiReply(500, "failed", "Failed to handle file: " + CopyErrorMessage(TargetExists, temp, target), None))
      && a.fs == MkdirsParent(Mkdirs(fs, UploadDir(cfg, fields)), target)
  {
  }

  /** A successful upload of a regular temporary file stores its bytes at
      the target and answers one entry with the target's name, trimmed path
      and the number of bytes stored. */
  lemma AddReportsStored(fs: FileSystem, cfg: Config, metadata: Metadata, temp: string)
    requires temp in fs && fs[temp].File?
    requires FileAdd(fs, cfg, metadata, Some(temp)).outcome.Responded?
    requires FileAdd(fs, cfg, metadata, Some(temp)).outcome.reply.status == "success"
    ensures var fields := MetadataFields(metadata);
      var a := FileAdd(fs, cfg, metadata, Some(temp));
      var target := Join(UploadDir(cfg, fields), fields["filename"]);
      "filename" in fields && a.fs[target] == fs[temp]
      && a.outcome.reply.data == Some([FileInfo(Name(target), Relative(cfg, target), RegularFile, Bytes(|fs[temp].data|))])
  {
    var fields := MetadataFields(metadata);
    var made := Mkdirs(fs, UploadDir(cfg, fields));
    var filename := fields["filename"];
    var target := Join(UploadDir(cfg, fields), filename);
    var before := MkdirsParent(made, target);
    assert made[temp] == fs[temp];
    assert before[temp] == fs[temp] by {
      match Parent(target)
      case None =>
      case Some(par) =>
    }
    CopyCopiesBytes(before, temp, target, false);
  }

  // --------------------------------------------------------------- download

  function DownloadTarget(cfg: Config, uri: string): string {
    Join(cfg.workingDir, RemovePrefix(uri, "/files/download/"))
  }

  /** `handleFileDownload`: a 404 for a missing file, the whole file
      otherwise; a Range header is never looked at. A directory cannot be
      opened for reading. */
  function FileDownload(fs: FileSystem, cfg: Config, uri: string): (r: Outcome<FileReply>)
    ensures DownloadTarget(cfg, uri) !in fs ==> r == Responded(FileReply(404, Some(MIME_PLAINTEXT), [], TextBody("File not found")))
    ensures DownloadTarget(cfg, uri) in fs && fs[DownloadTarget(cfg, uri)].File? ==>
      r == Responded(FileReply(200, None, [], ByteBody(fs[DownloadTarget(cfg, uri)].data)))
    ensures r.Responded? ==> r.reply.code == 200 || r.reply.code == 404
  {
    var file := DownloadTarget(cfg, uri);
    if file !in fs then Responded(FileReply(404, Some(MIME_PLAINTEXT), [], TextBody("File not found")))
    else match fs[file]
      case Dir(_) => Threw("FileNotFoundException")
      case File(data) => Responded(FileReply(200, None, [], ByteBody(data)))
  }
}
