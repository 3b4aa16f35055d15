/** The order backend-node lists a directory in: the comparator passed to
    `Array.prototype.sort`, and the sort itself. The comparator puts a
    directory before a file and otherwise compares the lower-cased names
    with `localeCompare`. `dirs` is the set of names `lstatSync`
    reports as directories. */
module NodeSort {
  import opened Text

  /** `a.localeCompare(b)`, taken as code-point order: negative, zero or positive. */
  function LocaleCompare(a: string, b: string): int {
    if a == b then 0 else if LexLe(a, b) then -1 else 1
  }

  /** The comparator: directories first, then by lower-cased name. */
  function Compare(dirs: set<string>, a: string, b: string): int {
    var aDir, bDir := a in dirs, b in dirs;
    if aDir == bDir then LocaleCompare(Lower(a), Lower(b))
    else if aDir then -1 else 1
  }

  /** `a` may come before `b`: a directory before a file, and names of the
      same kind in the order of their lower-cased forms. */
  predicate InOrder(dirs: set<string>, a: string, b: string) {
    (a in dirs && b !in dirs) || ((a in dirs <==> b in dirs) && LexLe(Lower(a), Lower(b)))
  }

  /** The comparator does not put `a` after `b` exactly when they are in
      order, and when it does put `a` after `b`, `b` and `a` are in order. */
  lemma CompareOrder(dirs: set<string>, a: string, b: string)
    ensures Compare(dirs, a, b) <= 0 <==> InOrder(dirs, a, b)
    ensures Compare(dirs, a, b) > 0 ==> InOrder(dirs, b, a)
  {
    var la, lb := Lower(a), Lower(b);
    LexLeTotal(la, lb);
    LexLeTotal(la, la);
  }

  lemma InOrderTransitive(dirs: set<string>, a: string, b: string, c: string)
    requires InOrder(dirs, a, b) && InOrder(dirs, b, c)
    ensures InOrder(dirs, a, c)
  {
    if (a in dirs <==> b in dirs) && (b in dirs <==> c in dirs) {
      LexLeTransitive(Lower(a), Lower(b), Lower(c));
    }
  }

  predicate Sorted(dirs: set<string>, l: seq<string>) {
    forall i, j :: 0 <= i < j < |l| ==> InOrder(dirs, l[i], l[j])
  }

  /** `x` placed before the first name it does not compare after; it stays
      ahead of the names it compares equal to. */
  function Insert(dirs: set<string>, x: string, l: seq<string>): (r: seq<string>)
    ensures multiset(r) == multiset{x} + multiset(l)
    decreases |l|
  {
    if |l| == 0 then [x]
    else if Compare(dirs, x, l[0]) <= 0 then [x] + l
    else
      assert l == [l[0]] + l[1..];
      [l[0]] + Insert(dirs, x, l[1..])
  }

  /** The sort: each name inserted, from the last to the first, into the sorted rest. */
  function Sort(dirs: set<string>, names: seq<string>): (r: seq<string>)
    ensures multiset(r) == multiset(names)
    decreases |names|
  {
    if |names| == 0 then []
    else
      assert names == [names[0]] + names[1..];
      Insert(dirs, names[0], Sort(dirs, names[1..]))
  }

  lemma {:induction false} InsertSorted(dirs: set<string>, x: string, l: seq<string>)
    requires Sorted(dirs, l)
    ensures Sorted(dirs, Insert(dirs, x, l))
    decreases |l|
  {
    if |l| > 0 {
      CompareOrder(dirs, x, l[0]);
      if Compare(dirs, x, l[0]) <= 0 {
        InsertInFront(dirs, x, l);
      } else {
        SortedTail(dirs, l);
        InsertSorted(dirs, x, l[1..]);
        InsertBehind(dirs, x, l);
      }
    }
  }

  lemma InsertInFront(dirs: set<string>, x: string, l: seq<string>)
    requires Sorted(dirs, l) && |l| > 0 && InOrder(dirs, x, l[0])
    ensures Sorted(dirs, [x] + l)
  {
    var r := [x] + l;
    forall i, j | 0 <= i < j < |r| ensures InOrder(dirs, r[i], r[j]) {
      if i == 0 && j > 1 {
        InOrderTransitive(dirs, x, l[0], l[j - 1]);
      }
    }
  }

  lemma SortedTail(dirs: set<string>, l: seq<string>)
    requires Sorted(dirs, l) && |l| > 0
    ensures Sorted(dirs, l[1..])
  {
    forall i, j | 0 <= i < j < |l[1..]| ensures InOrder(dirs, l[1..][i], l[1..][j]) {
      assert l[1..][i] == l[i + 1] && l[1..][j] == l[j + 1];
    }
  }

  /** The head of a sorted list is in order with everything the rest becomes after an insertion behind it. */
  lemma HeadFirst(dirs: set<string>, x: string, l: seq<string>)
    requires Sorted(dirs, l) && |l| > 0 && InOrder(dirs, l[0], x)
    ensures forall y :: y in Insert(dirs, x, l[1..]) ==> InOrder(dirs, l[0], y)
  {
    var t := Insert(dirs, x, l[1..]);
    forall y | y in t ensures InOrder(dirs, l[0], y) {
      assert y in multiset(t);
      if y != x {
        assert y in multiset(l[1..]);
        var k :| 0 <= k < |l[1..]| && l[1..][k] == y;
        assert l[k + 1] == y;
      }
    }
  }

  lemma InsertBehind(dirs: set<string>, x: string, l: seq<string>)
    requires Sorted(dirs, l) && |l| > 0 && Compare(dirs, x, l[0]) > 0 && InOrder(dirs, l[0], x)
    requires Sorted(dirs, Insert(dirs, x, l[1..]))
    ensures Sorted(dirs, Insert(dirs, x, l))
  {
    HeadFirst(dirs, x, l);
    ConsSorted(dirs, l[0], Insert(dirs, x, l[1..]));
  }

  /** A name in order with every name of a sorted list can go in front of it. */
  lemma ConsSorted(dirs: set<string>, h: string, t: seq<string>)
    requires Sorted(dirs, t) && forall y :: y in t ==> InOrder(dirs, h, y)
    ensures Sorted(dirs, [h] + t)
  {
    var r := [h] + t;
    forall i, j | 0 <= i < j < |r| ensures InOrder(dirs, r[i], r[j]) {
      if i == 0 {
        assert r[j] == t[j - 1];
        assert t[j - 1] in t;
      } else {
        assert r[i] == t[i - 1] && r[j] == t[j - 1];
      }
    }
  }

  lemma {:induction false} SortIsSorted(dirs: set<string>, names: seq<string>)
    ensures Sorted(dirs, Sort(dirs, names))
    decreases |names|
  {
    if |names| > 0 {
      SortIsSorted(dirs, names[1..]);
      InsertSorted(dirs, names[0], Sort(dirs, names[1..]));
    }
  }

  /** The listing is sorted: every directory before every file, and names of one kind by their lower-cased forms. */
  lemma SortSorted(dirs: set<string>, names: seq<string>)
    ensures var r := Sort(dirs, names);
      forall i, j :: 0 <= i < j < |r| ==>
        (r[i] !in dirs ==> r[j] !in dirs)
        && ((r[i] in dirs <==> r[j] in dirs) ==> LexLe(Lower(r[i]), Lower(r[j])))
  {
    SortIsSorted(dirs, names);
  }
}
