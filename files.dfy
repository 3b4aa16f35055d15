/** The abstract filesystem every variant of the server works on: a map
    from absolute path to a directory (with its entry names, in the order
    the platform enumerates them) or a file (with its bytes). Path joining,
    `java.io.File`'s parent and name, `File.mkdirs()` and Kotlin's
    `File.copyTo` are stated over it as functions; `Disk` holds the one
    mutable filesystem the upload handlers change in place. */
module Files {
  import opened Text

  newtype byte = x: int | 0 <= x < 256

  datatype Node = Dir(names: seq<string>) | File(data: seq<byte>)

  type FileSystem = map<string, Node>

  /** `Paths.get(base, rel)` / `path.join(base, rel)` in this model: the
      separator is added only when there is something to add. */
  function Join(base: string, rel: string): string {
    if rel == "" then base else base + "/" + rel
  }

  /** Index of the last `/` of a path. */
  function LastSlash(p: string): (r: Option<nat>)
    ensures r.Some? ==> r.value < |p| && p[r.value] == '/' && '/' !in p[r.value + 1..]
    ensures r.None? ==> '/' !in p
    decreases |p|
  {
    if |p| == 0 then None
    else if p[|p| - 1] == '/' then Some(|p| - 1)
    else
      var r := LastSlash(p[..|p| - 1]);
      assert r.Some? ==> p[r.value + 1..] == p[..|p| - 1][r.value + 1..] + [p[|p| - 1]];
      r
  }

  /** `java.io.File.getParent()` on a Unix path: everything before the last
      separator, `/` for a top-level entry, nothing for `/` or a bare name. */
  function Parent(p: string): (r: Option<string>)
    ensures r.Some? ==> |r.value| < |p|
    ensures r.None? ==> '/' !in p || p == "/"
  {
    match LastSlash(p)
    case None => None
    case Some(i) =>
      if i == 0 then (if |p| > 1 then Some("/") else None) else Some(p[..i])
  }

  /** `java.io.File.getName()`: the text after the last separator. */
  function Name(p: string): string {
    match LastSlash(p)
    case None => p
    case Some(i) => p[i + 1..]
  }

  lemma JoinParts(base: string, name: string)
    requires name != "" && '/' !in name && base != "" && base != "/"
    ensures Parent(Join(base, name)) == Some(base)
    ensures Name(Join(base, name)) == name
  {
    var p := base + "/" + name;
    assert p[|base|] == '/';
    assert p[|base| + 1..] == name;
    assert p[..|base|] == base;
  }

  /** `k` is `p` or one of the directories above it. */
  predicate AncestorOrSelf(k: string, p: string)
    decreases |p|
  {
    k == p || (Parent(p).Some? && AncestorOrSelf(k, Parent(p).value))
  }

  function AddName(names: seq<string>, n: string): (r: seq<string>)
    ensures n in r && forall x :: x in names ==> x in r
  {
    if n in names then names else names + [n]
  }

  /** `File(p).mkdirs()`: creates `p` and every missing directory above it,
      each new directory being appended to its parent's entries; stops at
      the first ancestor that cannot hold a directory. */
  function Mkdirs(fs: FileSystem, p: string): (r: FileSystem)
    ensures fs.Keys <= r.Keys
    ensures p in fs ==> r == fs
    ensures forall k :: k in fs && !AncestorOrSelf(k, p) ==> r[k] == fs[k]
    ensures forall k :: k in r && k !in fs ==> AncestorOrSelf(k, p) && r[k].Dir?
    ensures forall k :: k in fs && fs[k].Dir? ==> r[k].Dir?
    ensures forall k :: k in fs && fs[k].File? ==> r[k] == fs[k]
    decreases |p|
  {
    if p in fs then fs
    else match Parent(p)
      case None => fs
      case Some(par) =>
        var up := Mkdirs(fs, par);
        if par in up && up[par].Dir? then up[p := Dir([])][par := Dir(AddName(up[par].names, Name(p)))]
        else up
  }

  /** `target.parentFile?.mkdirs()`. */
  function MkdirsParent(fs: FileSystem, target: string): FileSystem {
    match Parent(target)
    case None => fs
    case Some(par) => Mkdirs(fs, par)
  }

  /** Why Kotlin's `File.copyTo` threw. */
  datatype CopyError =
    | SourceMissing   // NoSuchFileException: the source file doesn't exist
    | TargetExists    // FileAlreadyExistsException: the destination file already exists
    | DeleteFailed    // FileAlreadyExistsException: failed to delete the destination to overwrite it
    | MkdirFailed     // FileSystemException: failed to create the target directory
    | ReadFailed      // FileNotFoundException on the source stream
    | WriteFailed     // FileNotFoundException on the target stream

  /** The exception's message: `kotlin.io.FileSystemException` prints the
      source, the other file after ` -> ` and the reason after `: `; the
      stream errors carry the operating system's reason in parentheses. */
  function CopyErrorMessage(e: CopyError, source: string, target: string): string {
    match e
    case SourceMissing => source + ": The source file doesn't exist."
    case TargetExists => source + " -> " + target + ": The destination file already exists."
    case DeleteFailed => source + " -> " + target + ": Tried to overwrite the destination, but failed to delete it."
    case MkdirFailed => source + " -> " + target + ": Failed to create target directory."
    case ReadFailed => source + " (No such file or directory)"
    case WriteFailed => target + " (No such file or directory)"
  }

  /** The filesystem after a copy attempt, and the error it threw, if any;
      a failed copy may still have deleted the old target or made directories. */
  datatype CopyResult = CopyResult(fs: FileSystem, error: Option<CopyError>)

  /** Writes a file whose parent must already be a directory. */
  function WriteFile(fs: FileSystem, target: string, data: seq<byte>): (r: CopyResult)
    ensures r.error.None? ==> r.fs.Keys == fs.Keys + {target} && r.fs[target] == File(data)
    ensures r.error.Some? ==> r.fs == fs && r.error == Some(WriteFailed)
  {
    match Parent(target)
    case None => CopyResult(fs[target := File(data)], None)
    case Some(par) =>
      if par in fs && fs[par].Dir? then
        CopyResult(fs[target := File(data)][par := Dir(AddName(fs[par].names, Name(target)))], None)
      else CopyResult(fs, Some(WriteFailed))
  }

  /** Kotlin's `source.copyTo(target, overwrite)`, step by step: the source
      must exist; an existing target is an error unless `overwrite`, and is
      then deleted (which fails for a non-empty directory); a directory source
      makes the target directory, a file source is written under its parent
      after `mkdirs` of that parent. */
  function CopyTo(fs: FileSystem, source: string, target: string, overwrite: bool): CopyResult {
    if source !in fs then CopyResult(fs, Some(SourceMissing))
    else if target in fs && !overwrite then CopyResult(fs, Some(TargetExists))
    else if target in fs && fs[target].Dir? && fs[target].names != [] then CopyResult(fs, Some(DeleteFailed))
    else
      var cleared := fs - {target};
      if source == target then CopyResult(cleared, Some(ReadFailed))
      else match fs[source]
        case Dir(_) =>
          var made := Mkdirs(cleared, target);
          if target in made && made[target].Dir? then CopyResult(made, None)
          else CopyResult(made, Some(MkdirFailed))
        case File(data) => WriteFile(MkdirsParent(cleared, target), target, data)
  }

  /** An existing destination is never replaced unless overwriting is allowed. */
  lemma CopyRefusesExisting(fs: FileSystem, source: string, target: string)
    requires source in fs && target in fs
    ensures CopyTo(fs, source, target, false) == CopyResult(fs, Some(TargetExists))
  {
  }

  /** A successful copy of a file leaves the source's bytes at the target and
      changes nothing that is neither the target nor a directory above it. */
  lemma CopyCopiesBytes(fs: FileSystem, source: string, target: string, overwrite: bool)
    requires source in fs && fs[source].File?
    requires CopyTo(fs, source, target, overwrite).error.None?
    ensures var r := CopyTo(fs, source, target, overwrite).fs;
      target in r && r[target] == fs[source]
      && source in r && r[source] == fs[source]
      && fs.Keys <= r.Keys
      && forall k :: k in fs && k != target && !(Parent(target).Some? && AncestorOrSelf(k, Parent(target).value)) ==> r[k] == fs[k]
  {
    var cleared := fs - {target};
    var made := MkdirsParent(cleared, target);
    assert source != target;
    assert fs[source].File?;
    assert made[source] == fs[source];
    var r := CopyTo(fs, source, target, overwrite).fs;
    assert r == WriteFile(made, target, fs[source].data).fs;
    forall k | k in fs && k != target && !(Parent(target).Some? && AncestorOrSelf(k, Parent(target).value))
      ensures r[k] == fs[k]
    {
      assert k in cleared;
      assert made[k] == cleared[k];
    }
  }

  /** The filesystem the upload handlers change in place. */
  class Disk {
    var nodes: FileSystem

    constructor (initial: FileSystem)
      ensures nodes == initial
    {
      nodes := initial;
    }
  }

  /** The callback an embedding application registers to hear about every
      file received; it records the paths it was given, in order. */
  class FileReceivedListener {
    var received: seq<string>

    constructor ()
      ensures received == []
    {
      received := [];
    }

    method OnFileReceived(path: string)
      modifies this
      ensures received == old(received) + [path]
    {
      received := received + [path];
    }
  }
}
