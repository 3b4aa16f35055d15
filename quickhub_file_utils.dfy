/** The path helpers of the quickhub server: `normalizePath` rewrites
    backslashes, collapses runs of slashes and drops trailing slashes and
    dots; `trimFromBeginning` turns an absolute path into one relative to
    the working directory by textual prefix removal. */
module QuickhubFileUtils {
  import opened Text

  /** No two consecutive slashes. */
  predicate NoDoubleSlash(s: string) {
    forall i, j :: 0 <= i < |s| && 0 <= j < |s| && j == i + 1 ==> !(s[i] == '/' && s[j] == '/')
  }

  /** The regular-expression rewrite of `/+` to `/`: every run of slashes
      becomes one; nothing else changes. */
  function CollapseSlashes(s: string): (r: string)
    ensures NoDoubleSlash(r)
    ensures |r| <= |s|
    ensures |s| > 0 ==> |r| > 0 && r[0] == s[0]
    ensures NoDoubleSlash(s) ==> r == s
    decreases |s|
  {
    if |s| == 0 then []
    else
      var rest := CollapseSlashes(s[1..]);
      if s[0] == '/' && |s| > 1 && s[1] == '/' then rest
      else [s[0]] + rest
  }

  lemma {:induction false} CollapseNoBackslash(s: string)
    requires '\\' !in s
    ensures '\\' !in CollapseSlashes(s)
    decreases |s|
  {
    if |s| > 0 {
      CollapseNoBackslash(s[1..]);
    }
  }

  /** The loop condition of `normalizePath`: the text ends in `/` or `.` and is neither `/` nor `.`. */
  predicate Strippable(s: string) {
    (EndsWith(s, "/") || EndsWith(s, ".")) && s != "/" && s != "."
  }

  /** The text left when the loop stops: the longest prefix that is not strippable. */
  function StripTrailing(s: string): (r: string)
    ensures |r| <= |s| && r == s[..|r|]
    ensures !Strippable(r)
    ensures !Strippable(s) ==> r == s
    decreases |s|
  {
    if Strippable(s) then StripTrailing(s[..|s| - 1]) else s
  }

  /** What `normalizePath` returns, as a function of its argument. */
  function Normalized(path: string): string {
    StripTrailing(CollapseSlashes(ReplaceAll(path, '\\', "/")))
  }

  /** `normalizePath`: the two rewrites, then a loop dropping the last
      character while it is a slash or a dot. */
  method NormalizePath(path: string) returns (normalized: string)
    ensures normalized == Normalized(path)
  {
    normalized := ReplaceAll(path, '\\', "/");
    normalized := CollapseSlashes(normalized);
    ghost var collapsed := normalized;
    while Strippable(normalized)
      invariant StripTrailing(normalized) == StripTrailing(collapsed)
      decreases |normalized|
    {
      normalized := normalized[..|normalized| - 1];
    }
  }

  /** The result uses forward slashes only, never two in a row. */
  lemma NormalizedClean(path: string)
    ensures '\\' !in Normalized(path)
    ensures NoDoubleSlash(Normalized(path))
  {
    var replaced := ReplaceAll(path, '\\', "/");
    ReplaceAllRemoves(path, '\\', "/");
    var collapsed := CollapseSlashes(replaced);
    CollapseNoBackslash(replaced);
    var r := StripTrailing(collapsed);
    assert r == collapsed[..|r|];
    forall i | 0 <= i < |r| ensures r[i] != '\\' {
      assert r[i] == collapsed[i];
    }
    forall i | 0 <= i < |r| - 1 ensures !(r[i] == '/' && r[i + 1] == '/') {
      assert r[i] == collapsed[i] && r[i + 1] == collapsed[i + 1];
    }
  }

  /** The result ends in neither `/` nor `.` unless it is exactly one of them:
      trailing dots of a name go too, so `a..` becomes `a`. */
  lemma NormalizedEnding(path: string)
    ensures var r := Normalized(path);
      r == "/" || r == "." || (!EndsWith(r, "/") && !EndsWith(r, "."))
  {
  }

  lemma NormalizedDropsTrailingDots()
    ensures Normalized("a..") == "a"
  {
    assert ReplaceAll("a..", '\\', "/") == "a..";
    assert CollapseSlashes("a..") == "a..";
    assert Strippable("a..") && Strippable("a.") && !Strippable("a");
    assert "a.."[..2] == "a." && "a."[..1] == "a";
  }

  /** Only trailing characters are removed after the separator rewrite: the
      result is a prefix of the collapsed text. */
  lemma NormalizedIsPrefix(path: string)
    ensures var c := CollapseSlashes(ReplaceAll(path, '\\', "/"));
      |Normalized(path)| <= |c| && c[..|Normalized(path)|] == Normalized(path)
  {
  }

  /** Normalizing twice is normalizing once. */
  lemma NormalizedIdempotent(path: string)
    ensures Normalized(Normalized(path)) == Normalized(path)
  {
    var r := Normalized(path);
    NormalizedClean(path);
    ReplaceAllAbsent(r, '\\', "/");
  }

  /** `trimFromBeginning`: both paths normalized, the prefix removed as text,
      then one leading `/` and one leading `\`. */
  function TrimFromBeginning(path: string, prefix: string): string {
    var trimmed := RemovePrefix(Normalized(path), Normalized(prefix));
    RemovePrefix(RemovePrefix(trimmed, "/"), "\\")
  }

  /** Trimming a path by itself leaves nothing. */
  lemma TrimSelf(p: string)
    ensures TrimFromBeginning(p, p) == ""
  {
    var n := Normalized(p);
    assert StartsWith(n, n);
    assert RemovePrefix(n, n) == "";
  }

  /** The removal steps of `trimFromBeginning` on a text with no backslash
      and no double slash. */
  lemma RemovalsClean(p: string, q: string)
    requires '\\' !in p && NoDoubleSlash(p)
    ensures var r := RemovePrefix(RemovePrefix(RemovePrefix(p, q), "/"), "\\");
      !StartsWith(r, "/") && '\\' !in r
  {
    var t := RemovePrefix(p, q);
    var k := |p| - |t|;
    assert t == p[k..];
    if StartsWith(t, "/") && |t| > 1 {
      assert t[0] == p[k] && t[1] == p[k + 1];
    }
    var u := RemovePrefix(t, "/");
    assert forall x :: x in u ==> x in p;
  }

  /** The result never starts with a separator and holds no backslash. */
  lemma TrimNoLeadingSeparator(path: string, prefix: string)
    ensures var r := TrimFromBeginning(path, prefix);
      !StartsWith(r, "/") && '\\' !in r
  {
    NormalizedClean(path);
    RemovalsClean(Normalized(path), Normalized(prefix));
  }

  /** The prefix is removed as text, not by path segments: any normalized
      continuation of the prefix that does not start with a separator comes
      back whole, so `/data/shared2` trimmed by `/data/shared` is `2`. */
  lemma TrimTextual(root: string, tail: string)
    requires Normalized(root) == root && Normalized(root + tail) == root + tail
    requires !StartsWith(tail, "/")
    ensures TrimFromBeginning(root + tail, root) == tail
  {
    NormalizedClean(root + tail);
    assert tail == (root + tail)[|root|..];
    assert StartsWith(root + tail, root);
    if |tail| > 0 {
      assert tail[0] == (root + tail)[|root|];
    }
  }

  /** A text the three rewrites leave alone. */
  lemma NormalizedFixed(s: string)
    requires '\\' !in s && NoDoubleSlash(s) && !Strippable(s)
    ensures Normalized(s) == s
  {
    ReplaceAllAbsent(s, '\\', "/");
  }

  /** Joining two texts with one slash makes no double slash when neither
      side brings a slash to the junction. */
  lemma NoDoubleSlashJoin(a: string, b: string)
    requires NoDoubleSlash(a) && NoDoubleSlash(b)
    requires |a| == 0 || a[|a| - 1] != '/'
    requires |b| == 0 || b[0] != '/'
    ensures NoDoubleSlash(a + "/" + b)
  {
    var s := a + "/" + b;
    forall i | 0 <= i < |s| - 1 ensures !(s[i] == '/' && s[i + 1] == '/') {
      if i < |a| - 1 {
        assert s[i] == a[i] && s[i + 1] == a[i + 1];
      } else if i == |a| - 1 {
        assert s[i] == a[|a| - 1];
      } else if i == |a| {
        assert s[i + 1] == b[0];
      } else {
        assert s[i] == b[i - |a| - 1] && s[i + 1] == b[i - |a|];
      }
    }
  }

  /** The normalized form of `root/rel` when both sides are clean. */
  lemma JoinedNormalized(root: string, rel: string)
    requires '\\' !in root && NoDoubleSlash(root) && '\\' !in rel && NoDoubleSlash(rel)
    requires |rel| > 0 && rel[0] != '/' && rel[|rel| - 1] != '/' && rel[|rel| - 1] != '.'
    requires root == "/" || |root| == 0 || root[|root| - 1] != '/'
    ensures Normalized(root + "/" + rel) == if root == "/" then "/" + rel else root + "/" + rel
  {
    var path := root + "/" + rel;
    var shorter := "/" + rel;
    assert shorter == "" + "/" + rel;
    NoDoubleSlashJoin("", rel);
    assert shorter[|shorter| - 1] == rel[|rel| - 1];
    if root == "/" {
      assert path[1..] == shorter;
      ReplaceAllAbsent(path, '\\', "/");
      assert CollapseSlashes(path) == shorter;
    } else {
      NoDoubleSlashJoin(root, rel);
      assert path[|path| - 1] == rel[|rel| - 1];
      NormalizedFixed(path);
    }
  }

  /** The removal steps of `trimFromBeginning` on the normalized `root/rel`. */
  lemma TrimSteps(root: string, rel: string)
    requires |rel| > 0 && rel[0] != '/' && rel[0] != '\\'
    ensures var n := if root == "/" then "/" + rel else root + "/" + rel;
      RemovePrefix(RemovePrefix(RemovePrefix(n, root), "/"), "\\") == rel
  {
    var t := if root == "/" then rel else "/" + rel;
    if root != "/" {
      assert (root + "/" + rel)[..|root|] == root;
      assert (root + "/" + rel)[|root|..] == t;
    }
  }

  /** What being normalized says about a text. */
  lemma NormalFacts(s: string)
    requires Normalized(s) == s
    ensures '\\' !in s && NoDoubleSlash(s)
    ensures s == "/" || s == "." || |s| == 0 || (s[|s| - 1] != '/' && s[|s| - 1] != '.')
  {
    NormalizedClean(s);
    NormalizedEnding(s);
    if s != "/" && s != "." && |s| > 0 {
      assert !EndsWith(s, "/") && !EndsWith(s, ".");
      assert s[|s| - 1..] == [s[|s| - 1]];
    }
  }

  lemma TrimJoinedClean(root: string, rel: string)
    requires '\\' !in root && NoDoubleSlash(root) && '\\' !in rel && NoDoubleSlash(rel)
    requires root == "/" || root == "." || |root| == 0 || (root[|root| - 1] != '/' && root[|root| - 1] != '.')
    requires |rel| > 0 && rel[0] != '/' && rel[|rel| - 1] != '/' && rel[|rel| - 1] != '.'
    ensures TrimFromBeginning(root + "/" + rel, root) == rel
  {
    assert !Strippable(root);
    NormalizedFixed(root);
    assert rel[0] != '\\' by {
      assert rel[0] in rel;
    }
    JoinedNormalized(root, rel);
    TrimSteps(root, rel);
  }

  /** A normalized relative path joined under a normalized root comes back
      unchanged. */
  lemma TrimJoined(root: string, rel: string)
    requires Normalized(root) == root && Normalized(rel) == rel
    requires rel != "" && rel != "." && !StartsWith(rel, "/")
    ensures TrimFromBeginning(root + "/" + rel, root) == rel
  {
    assert '\\' !in root && NoDoubleSlash(root)
      && (root == "/" || root == "." || |root| == 0 || (root[|root| - 1] != '/' && root[|root| - 1] != '.')) by {
      NormalFacts(root);
    }
    assert rel[0] != '/' by {
      assert rel[..1] == [rel[0]];
    }
    assert '\\' !in rel && NoDoubleSlash(rel) && rel[|rel| - 1] != '/' && rel[|rel| - 1] != '.' by {
      NormalFacts(rel);
      assert rel != "/";
    }
    TrimJoinedClean(root, rel);
  }
}
