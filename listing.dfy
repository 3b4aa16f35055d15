/** What every directory listing of the server shares: hidden names
    (starting with `.`) are dropped and the rest keep their order; each
    entry carries a name, a client-facing path, a type and a size. */
module Listing {
  import opened Text
  import opened Files

  predicate Hidden(name: string) {
    StartsWith(name, ".")
  }

  /** `names.filter { !it.startsWith(".") }`, defined from the last name so
      that a loop over the names can extend it one step at a time. */
  function Visible(names: seq<string>): (r: seq<string>)
    ensures |r| <= |names|
    ensures forall x :: x in r <==> x in names && !Hidden(x)
    decreases |names|
  {
    if |names| == 0 then []
    else
      var last := names[|names| - 1];
      assert names == names[..|names| - 1] + [last];
      Visible(names[..|names| - 1]) + (if Hidden(last) then [] else [last])
  }

  /** The filter keeps order: filtering a concatenation concatenates the filtered parts. */
  lemma {:induction false} VisibleConcat(a: seq<string>, b: seq<string>)
    ensures Visible(a + b) == Visible(a) + Visible(b)
    decreases |b|
  {
    if |b| == 0 {
      assert a + b == a;
    } else {
      var last := b[|b| - 1];
      assert (a + b)[..|a + b| - 1] == a + b[..|b| - 1];
      VisibleConcat(a, b[..|b| - 1]);
    }
  }

  /** Each visible name is kept as often as it occurs; hidden names never. */
  lemma {:induction false} VisibleCounts(names: seq<string>, x: string)
    ensures multiset(Visible(names))[x] == if Hidden(x) then 0 else multiset(names)[x]
    decreases |names|
  {
    if |names| > 0 {
      var init := names[..|names| - 1];
      assert names == init + [names[|names| - 1]];
      VisibleCounts(init, x);
    }
  }

  datatype EntryType = Directory | RegularFile

  /** The `size` field: absent (Kotlin's `null`, dropped by the JSON
      encoder), the empty string `''` (Node), or a byte count. */
  datatype Size = Unset | Blank | Bytes(n: nat)

  datatype FileInfo = FileInfo(name: string, path: string, kind: EntryType, size: Size)

  /** The entries for a run of names, built by `entry`, in the same order. */
  function MapEntries(names: seq<string>, entry: string -> FileInfo): (r: seq<FileInfo>)
    ensures |r| == |names| && forall i :: 0 <= i < |names| ==> r[i] == entry(names[i])
    decreases |names|
  {
    if |names| == 0 then []
    else MapEntries(names[..|names| - 1], entry) + [entry(names[|names| - 1])]
  }

  /** The `forEach` that adds one entry per name to the list built so far. */
  method AppendEntries(init: seq<FileInfo>, names: seq<string>, entry: string -> FileInfo) returns (infos: seq<FileInfo>)
    ensures infos == init + MapEntries(names, entry)
  {
    infos := init;
    var i := 0;
    while i < |names|
      invariant 0 <= i <= |names|
      invariant infos == init + MapEntries(names[..i], entry)
    {
      assert names[..i + 1][..i] == names[..i];
      infos := infos + [entry(names[i])];
      i := i + 1;
    }
    assert names[..i] == names;
  }

  /** The names of a run of entries, in order. */
  function NamesOf(infos: seq<FileInfo>): (r: seq<string>)
    ensures |r| == |infos| && forall i :: 0 <= i < |infos| ==> r[i] == infos[i].name
    decreases |infos|
  {
    if |infos| == 0 then [] else [infos[0].name] + NamesOf(infos[1..])
  }

  datatype ListData = ListData(folder: string, files: seq<FileInfo>)

  /** `File(p).isDirectory`. */
  function KindAt(fs: FileSystem, p: string): EntryType {
    if p in fs && fs[p].Dir? then Directory else RegularFile
  }

  /** `File(p).length()` of a regular file: its byte count; 0 when missing. */
  function LengthAt(fs: FileSystem, p: string): nat {
    if p in fs && fs[p].File? then |fs[p].data| else 0
  }
}
