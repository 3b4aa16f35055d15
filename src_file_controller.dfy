/** The `src/` tree's file endpoints: the listing in `readdir` order, the
    download of a named file, and the upload check. Each answer is the
    record handed to `jsonResponse` (status, message and data); the HTTP
    status is not part of it. The client-facing paths come from this
    tree's `trimFromBeginning`, which leaves the `/` after the working
    directory in place. */
module SrcFileController {
  import opened Text
  import opened Files
  import opened Http
  import opened Listing
  import opened Express
  import SrcUtils
  import NodeFileController

  type Config = NodeFileController.Config

  function Relative(cfg: Config, p: string): string {
    SrcUtils.TrimFromBeginning(p, cfg.workingDir)
  }

  // ---------------------------------------------------------------- listing

  /** The `..` entry, unshifted when the listed path is not the working directory. */
  function DotDot(cfg: Config, full: string): seq<FileInfo> {
    if full != cfg.workingDir then [FileInfo("..", Relative(cfg, full) + "/..", Directory, Unset)] else []
  }

  /** One entry: `statSync` tells the type, and the size is `''` for a directory. */
  function EntryFor(fs: FileSystem, cfg: Config, dir: string, name: string): FileInfo {
    var child := Join(dir, name);
    var kind := KindAt(fs, child);
    FileInfo(name, Relative(cfg, child), kind, if kind == Directory then Blank else Bytes(LengthAt(fs, child)))
  }

  function EntryMaker(fs: FileSystem, cfg: Config, dir: string): string -> FileInfo {
    name => EntryFor(fs, cfg, dir, name)
  }

  /** What `listHandler` answers: no sorting, the non-hidden names in the
      order `readdir` gives them. `path.join` throws on a truthy `dirname`
      that is not a string, `statSync` on a listed name that is gone. */
  function FileList(fs: FileSystem, cfg: Config, body: map<string, JsValue>): Outcome<JsonRecord<ListData>> {
    match NodeFileController.ListTarget(cfg, body)
    case None => Threw("TypeError")
    case Some(full) =>
      var dot := DotDot(cfg, full);
      if !(full in fs && fs[full].Dir?) then
        Responded(JsonRecord("failed", "Error listing files", Some(ListData(Relative(cfg, full), dot))))
      else
        var visible := Visible(fs[full].names);
        if !NodeFileController.AllPresent(fs, full, visible) then Threw("ENOENT")
        else
          Responded(JsonRecord("success", "Files listed successfully",
            Some(ListData(Relative(cfg, full), dot + MapEntries(visible, EntryMaker(fs, cfg, full))))))
  }

  /** `listHandler`: `..` unshifted first, the mapped names pushed after it, and the record sent. */
  method HandleList(fs: FileSystem, cfg: Config, body: map<string, JsValue>) returns (outcome: Outcome<JsonRecord<ListData>>)
    ensures outcome == FileList(fs, cfg, body)
  {
    var target := NodeFileController.ListTarget(cfg, body);
    if target.None? {
      return Threw("TypeError");
    }
    var fullPath := target.value;
    var fileInfos: seq<FileInfo> := [];
    if fullPath != cfg.workingDir {
      fileInfos := [FileInfo("..", SrcUtils.TrimFromBeginning(fullPath, cfg.workingDir) + "/..", Directory, Unset)] + fileInfos;
    }
    assert fileInfos == DotDot(cfg, fullPath);
    if !(fullPath in fs && fs[fullPath].Dir?) {
      return Responded(JsonRecord("failed", "Error listing files", Some(ListData(SrcUtils.TrimFromBeginning(fullPath, cfg.workingDir), fileInfos))));
    }
    var fileList := Visible(fs[fullPath].names);
    if !NodeFileController.AllPresent(fs, fullPath, fileList) {
      return Threw("ENOENT");
    }
    fileInfos := fileInfos + MapEntries(fileList, EntryMaker(fs, cfg, fullPath));
    outcome := Responded(JsonRecord("success", "Files listed successfully", Some(ListData(SrcUtils.TrimFromBeginning(fullPath, cfg.workingDir), fileInfos))));
  }

  /** `..` comes first exactly when the listed path is not the working
      directory; a failed `readdir` answers "failed" and still carries it. */
  lemma ListParentFirst(fs: FileSystem, cfg: Config, body: map<string, JsValue>)
    requires NodeFileController.ListTarget(cfg, body).Some? && FileList(fs, cfg, body).Responded?
    ensures var full := NodeFileController.ListTarget(cfg, body).value;
      var r := FileList(fs, cfg, body).reply;
      var files := r.data.value.files;
      ((|files| > 0 && files[0].name == "..") <==> full != cfg.workingDir)
      && (full != cfg.workingDir ==> files[0] == FileInfo("..", Relative(cfg, full) + "/..", Directory, Unset))
      && (!(full in fs && fs[full].Dir?) ==> r == JsonRecord("failed", "Error listing files", Some(ListData(Relative(cfg, full), DotDot(cfg, full)))))
  {
    var full := NodeFileController.ListTarget(cfg, body).value;
    var files := FileList(fs, cfg, body).reply.data.value.files;
    if full == cfg.workingDir && full in fs && fs[full].Dir? {
      NoParentAmongEntries(fs, cfg, full);
      assert files == MapEntries(Visible(fs[full].names), EntryMaker(fs, cfg, full));
    }
  }

  /** No listed entry is called `..`, since hidden names are dropped. */
  lemma NoParentAmongEntries(fs: FileSystem, cfg: Config, full: string)
    requires full in fs && fs[full].Dir?
    ensures var entries := MapEntries(Visible(fs[full].names), EntryMaker(fs, cfg, full));
      forall i :: 0 <= i < |entries| ==> entries[i].name != ".."
  {
    var names := Visible(fs[full].names);
    assert StartsWith("..", ".");
    forall i | 0 <= i < |names| ensures names[i] != ".." {
      assert names[i] in names;
    }
  }

  /** The `..` of a sub-folder keeps the separator: listing `d` gives the path `/d/..`. */
  lemma ListParentPath(cfg: Config, d: string)
    requires d != ""
    ensures DotDot(cfg, Join(cfg.workingDir, d)) == [FileInfo("..", "/" + d + "/..", Directory, Unset)]
  {
    assert cfg.workingDir + "/" + d == cfg.workingDir + ("/" + d);
    SrcUtils.TrimConcat(cfg.workingDir, "/" + d);
  }

  /** A successful listing is `..` (when due) and then one entry per
      non-hidden name, in `readdir` order; directories carry the size `''`
      and files their length, and each path keeps the leading `/`. */
  lemma ListEntries(fs: FileSystem, cfg: Config, body: map<string, JsValue>)
    requires NodeFileController.ListTarget(cfg, body).Some? && FileList(fs, cfg, body).Responded?
    requires var full := NodeFileController.ListTarget(cfg, body).value; full in fs && fs[full].Dir?
    ensures var full := NodeFileController.ListTarget(cfg, body).value;
      var r := FileList(fs, cfg, body).reply;
      var entries := r.data.value.files[|DotDot(cfg, full)|..];
      r.status == "success" && r.message == "Files listed successfully"
      && NamesOf(entries) == Visible(fs[full].names)
      && forall i :: 0 <= i < |entries| ==>
           entries[i].path == Relative(cfg, Join(full, entries[i].name))
           && (entries[i].kind == Directory <==> fs[Join(full, entries[i].name)].Dir?)
           && (entries[i].kind == Directory ==> entries[i].size == Blank)
           && (entries[i].kind == RegularFile ==> entries[i].size == Bytes(LengthAt(fs, Join(full, entries[i].name))))
  {
    var full := NodeFileController.ListTarget(cfg, body).value;
    var visible := Visible(fs[full].names);
    var entries := MapEntries(visible, EntryMaker(fs, cfg, full));
    assert FileList(fs, cfg, body).reply.data.value.files[|DotDot(cfg, full)|..] == entries;
    assert NamesOf(entries) == visible;
  }

  /** A name `readdir` lists but `statSync` cannot find makes the handler throw. */
  lemma ListVanishedName(fs: FileSystem, cfg: Config, body: map<string, JsValue>, name: string)
    requires NodeFileController.ListTarget(cfg, body).Some?
    requires var full := NodeFileController.ListTarget(cfg, body).value;
      full in fs && fs[full].Dir? && name in Visible(fs[full].names) && Join(full, name) !in fs
    ensures FileList(fs, cfg, body) == Threw("ENOENT")
  {
    var full := NodeFileController.ListTarget(cfg, body).value;
    var visible := Visible(fs[full].names);
    var i :| 0 <= i < |visible| && visible[i] == name;
  }

  // --------------------------------------------------------------- download

  /** What `downloadHandler` does: send a record, send the file as an
      attachment under the requested name, or pass the request on with `next()`. */
  datatype Download = Record(record: JsonRecord<()>) | Attachment(data: seq<byte>, name: string) | PassedOn

  /** `downloadHandler`: an existing path is handed to `res.download`; for a
      directory that ends in EISDIR, on which Express's `sendFile` calls `next()`. */
  function FileDownload(fs: FileSystem, cfg: Config, filename: string): Outcome<Download> {
    var filePath := Join(cfg.workingDir, filename);
    if filePath !in fs then Responded(Record(JsonRecord("failed", "File not found", None)))
    else if fs[filePath].Dir? then Responded(PassedOn)
    else Responded(Attachment(fs[filePath].data, filename))
  }

  /** The answer is "File not found" exactly when nothing is at the path;
      an existing file is sent whole, named as requested, and a directory is
      passed on; there is no range support. */
  lemma DownloadDecision(fs: FileSystem, cfg: Config, filename: string)
    ensures var p := Join(cfg.workingDir, filename);
      var r := FileDownload(fs, cfg, filename);
      (r == Responded(Record(JsonRecord("failed", "File not found", None))) <==> p !in fs)
      && (p in fs && fs[p].File? ==> r == Responded(Attachment(fs[p].data, filename)))
      && (p in fs && fs[p].Dir? ==> r == Responded(PassedOn))
  {
  }

  // ------------------------------------------------------------------ check

  /** What `checkHandler` answers: as in backend-node, an empty name, then an existing target, are refused. */
  function FileCheck(fs: FileSystem, cfg: Config, body: map<string, JsValue>): Outcome<JsonRecord<()>> {
    match NodeFileController.CheckTarget(cfg, body)
    case Threw(e) => Threw(e)
    case Responded(filePath) =>
      if !Truthy(Field(body, "filename")) then Responded(JsonRecord("failed", "No filename provided", None))
      else if filePath in fs then Responded(JsonRecord("failed", "File already exists", None))
      else Responded(JsonRecord("success", "File can be uploaded", None))
  }

  /** For a well-formed request: "success" exactly for a non-empty name whose
      target does not exist; otherwise the refusal says why. */
  lemma CheckDecision(fs: FileSystem, cfg: Config, body: map<string, JsValue>)
    requires NodeFileController.CheckTarget(cfg, body).Responded?
    ensures var r := FileCheck(fs, cfg, body).reply;
      var filename := Field(body, "filename").s;
      var target := NodeFileController.CheckTarget(cfg, body).reply;
      (r.status == "success" <==> filename != "" && target !in fs)
      && (filename == "" ==> r == JsonRecord("failed", "No filename provided", None))
      && (filename != "" && target in fs ==> r == JsonRecord("failed", "File already exists", None))
      && (r.status == "success" ==> r == JsonRecord("success", "File can be uploaded", None))
  {
  }

  /** The two trees decide alike: backend-node's answer carries the same status and message. */
  lemma CheckAgreesWithNode(fs: FileSystem, cfg: Config, body: map<string, JsValue>)
    ensures var mine := FileCheck(fs, cfg, body);
      var node := NodeFileController.FileCheck(fs, cfg, body);
      mine.Threw? <==> node.Threw?
    ensures var mine := FileCheck(fs, cfg, body);
      var node := NodeFileController.FileCheck(fs, cfg, body);
      mine.Responded? && node.Responded? ==>
        mine.reply.status == node.reply.status && mine.reply.message == node.reply.message
  {
  }

  /** An absent filename reaches `path.join` before the emptiness test, so the handler throws instead of answering. */
  lemma CheckAbsentFilename(fs: FileSystem, cfg: Config, body: map<string, JsValue>)
    requires "filename" !in body
    requires "dirname" !in body || body["dirname"] == Str("")
    ensures FileCheck(fs, cfg, body) == Threw("TypeError")
  {
  }
}
