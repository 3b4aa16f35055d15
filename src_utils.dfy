/** The `src/` tree's `utils.trimFromBeginning`: only the prefix is cut,
    the separator after it stays. */
module SrcUtils {
  import opened Text

  function TrimFromBeginning(str: string, tar: string): string {
    if StartsWith(str, tar) then str[|tar|..] else str
  }

  /** Whatever follows the prefix comes back as it is. */
  lemma TrimConcat(t: string, r: string)
    ensures TrimFromBeginning(t + r, t) == r
  {
    assert (t + r)[..|t|] == t;
  }

  /** The separator is not removed: a path below `t` keeps its `/`. */
  lemma TrimKeepsSeparator(t: string)
    ensures TrimFromBeginning(t + "/x", t) == "/x"
  {
    TrimConcat(t, "/x");
  }

  lemma TrimSelf(t: string)
    ensures TrimFromBeginning(t, t) == ""
  {
    assert t[..|t|] == t;
  }

  /** A text that does not start with the prefix is returned unchanged, and the result is always a suffix. */
  lemma TrimSuffix(str: string, tar: string)
    ensures !StartsWith(str, tar) ==> TrimFromBeginning(str, tar) == str
    ensures EndsWith(str, TrimFromBeginning(str, tar))
  {
    var r := TrimFromBeginning(str, tar);
    assert str[|str| - |r|..] == r;
  }
}
