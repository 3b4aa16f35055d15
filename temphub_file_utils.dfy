/** temphub's path and size helpers: the client-facing path is the text
    left after the working directory and one `/`; file sizes are printed
    in whole units of 1024, on a 64-bit `Long`. */
module TemphubFileUtils {
  import opened Text
  import opened Numbers

  /** `path.removePrefix(prefix).removePrefix("/")`. */
  function TrimFromBeginning(path: string, prefix: string): string {
    RemovePrefix(RemovePrefix(path, prefix), "/")
  }

  /** A path below the prefix comes back as the part after the separator, whatever it is. */
  lemma TrimJoined(prefix: string, rel: string)
    ensures TrimFromBeginning(prefix + "/" + rel, prefix) == rel
  {
    var p := prefix + "/" + rel;
    assert StartsWith(p, prefix) by { assert p[..|prefix|] == prefix; }
    assert p[|prefix|..] == "/" + rel;
    assert StartsWith("/" + rel, "/");
  }

  lemma TrimSelf(prefix: string)
    ensures TrimFromBeginning(prefix, prefix) == ""
  {
    assert prefix[..|prefix|] == prefix;
  }

  /** The result is what is left of the path after at most the prefix and
      one `/`; the prefix is removed as text, not as whole path segments. */
  lemma TrimSuffix(path: string, prefix: string)
    ensures var r := TrimFromBeginning(path, prefix);
      EndsWith(path, r) && |path| - |r| <= |prefix| + 1
      && (!StartsWith(path, prefix) && !StartsWith(path, "/") ==> r == path)
  {
    var once := RemovePrefix(path, prefix);
    var r := RemovePrefix(once, "/");
    assert path[|path| - |once|..] == once;
    assert once[|once| - |r|..] == r;
    assert path[|path| - |r|..] == once[|once| - |r|..];
  }

  /** Sibling names sharing a prefix are not told apart: `/data2/x` trims to `2/x` under `/data`. */
  lemma TrimTextual()
    ensures TrimFromBeginning("/data2/x", "/data") == "2/x"
  {
    assert StartsWith("/data2/x", "/data");
    assert "/data2/x"[5..] == "2/x";
    assert "2/x"[0] == '2';
  }

  const KILOBYTE: int := 1024
  const MEGABYTE: int := KILOBYTE * 1024
  const GIGABYTE: int := MEGABYTE * 1024
  const TERABYTE: int := GIGABYTE * 1024

  /** `formatFileSize`: the first unit whose next one is larger than the
      size; the numeral is the size divided by the unit, truncated. */
  function FormatFileSize(size: int): string
    requires LONG_MIN <= size <= LONG_MAX
  {
    if size < KILOBYTE then IntToString(size) + " B"
    else if size < MEGABYTE then IntToString(size / KILOBYTE) + " KB"
    else if size < GIGABYTE then IntToString(size / MEGABYTE) + " MB"
    else if size < TERABYTE then IntToString(size / GIGABYTE) + " GB"
    else IntToString(size / TERABYTE) + " TB"
  }

  const UNITS: seq<string> := ["B", "KB", "MB", "GB", "TB"]

  /** 1024 to the power `k`. */
  function Power(k: nat): (r: nat)
    ensures r >= 1
  {
    if k == 0 then 1 else 1024 * Power(k - 1)
  }

  /** Which unit a size is printed in: the largest `k` up to 4 with
      1024^k <= size, and 0 for anything below a kilobyte. */
  function Band(size: int): (k: nat)
    ensures k < |UNITS|
    ensures k == 0 <==> size < KILOBYTE
    ensures 0 < k ==> Power(k) <= size
    ensures k < 4 ==> size < Power(k + 1)
  {
    assert Power(1) == KILOBYTE && Power(2) == MEGABYTE && Power(3) == GIGABYTE && Power(4) == TERABYTE;
    if size < KILOBYTE then 0
    else if size < MEGABYTE then 1
    else if size < GIGABYTE then 2
    else if size < TERABYTE then 3
    else 4
  }

  /** Every size is printed as its band's numeral and unit; in the KB, MB
      and GB bands the numeral lies between 1 and 1023. */
  lemma FormatByBand(size: int)
    requires LONG_MIN <= size <= LONG_MAX
    ensures var k := Band(size);
      FormatFileSize(size) == IntToString(size / Power(k)) + " " + UNITS[k]
      && (0 < k < 4 ==> 1 <= size / Power(k) <= 1023)
  {
    var k := Band(size);
    BandText(size);
    if 0 < k < 4 {
      assert Power(k + 1) == 1024 * Power(k);
      DivBounds(size, Power(k));
    }
  }

  lemma PowerValues()
    ensures Power(1) == KILOBYTE && Power(2) == MEGABYTE && Power(3) == GIGABYTE && Power(4) == TERABYTE
  {
  }

  lemma BandText(size: int)
    requires LONG_MIN <= size <= LONG_MAX
    ensures var k := Band(size); FormatFileSize(size) == IntToString(size / Power(k)) + " " + UNITS[k]
  {
    PowerValues();
    var k := Band(size);
    if k == 0 { UnitText(IntToString(size), "B"); }
    else if k == 1 { UnitText(IntToString(size / KILOBYTE), "KB"); }
    else if k == 2 { UnitText(IntToString(size / MEGABYTE), "MB"); }
    else if k == 3 { UnitText(IntToString(size / GIGABYTE), "GB"); }
    else { UnitText(IntToString(size / TERABYTE), "TB"); }
  }

  lemma UnitText(n: string, unit: string)
    ensures n + " " + unit == n + (" " + unit)
  {
  }

  lemma DivBounds(size: int, unit: nat)
    requires unit >= 1 && unit <= size < 1024 * unit
    ensures 1 <= size / unit <= 1023
  {
    var q := size / unit;
    assert size == q * unit + size % unit;
  }

  /** Below a kilobyte, negative sizes included, the size itself is printed in bytes. */
  lemma FormatSmall(size: int)
    requires LONG_MIN <= size < KILOBYTE
    ensures FormatFileSize(size) == IntToString(size) + " B"
  {
  }

  /** The division truncates: 1536 bytes are "1 KB". */
  lemma FormatTruncates()
    ensures FormatFileSize(1536) == "1 KB"
  {
    assert NatToString(1) == "1";
  }

  /** From a terabyte up there is no larger unit, so the numeral grows without bound. */
  lemma FormatTerabytes(n: nat)
    requires 1 <= n && n * TERABYTE <= LONG_MAX
    ensures FormatFileSize(n * TERABYTE) == NatToString(n) + " TB"
  {
    assert n * TERABYTE >= TERABYTE;
    assert (n * TERABYTE) / TERABYTE == n;
  }
}
