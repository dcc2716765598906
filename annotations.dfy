/** The annotation table (`image_path,image_name,quality,timestamp`) and what deduplicating
    it means: one row per image path, each the row with the latest timestamp of its path,
    ordered by path. Both deduplicators (server.py and deduplicate_csv.py) are judged against
    `LatestPerPath`. The pandas pipeline, shared by both files, lives here. */
module Annotations {
  import opened Wrappers
  import opened Text
  import opened Sequences

  /** One annotation row; `ts` is the row's timestamp as an instant (microseconds). */
  datatype Row = Row(path: string, name: string, quality: string, ts: int)

  /** A table as read from a CSV file: its header and its rows. */
  datatype Sheet = Sheet(columns: seq<string>, rows: seq<Row>)

  datatype DedupError =
    | InputMissing
    | MissingColumns(columns: seq<string>)
    | MissingKey(column: string)

  /** What a successful deduplication reports: the file written, the three counts and the
      quality distribution (quality, count) in first-appearance order; `rows` is the table
      written to `outputFile`. */
  datatype Report = Report(outputFile: string, originalCount: nat, deduplicatedCount: nat,
                           removedCount: int, distribution: seq<(string, nat)>, rows: seq<Row>)

  const Required: seq<string> := ["image_path", "image_name", "quality", "timestamp"]

  /** `[col for col in required_columns if col not in df.columns]`: the required columns
      absent from the header, in the order image_path, image_name, quality, timestamp. */
  function Missing(columns: seq<string>): (m: seq<string>)
    ensures forall c :: c in m <==> c in Required && c !in columns
    ensures |m| <= |Required|
  {
    (if "image_path" in columns then [] else ["image_path"])
    + (if "image_name" in columns then [] else ["image_name"])
    + (if "quality" in columns then [] else ["quality"])
    + (if "timestamp" in columns then [] else ["timestamp"])
  }

  function PathKey(r: Row): string { r.path }

  function PathsOf(rows: seq<Row>): set<string> {
    set r | r in rows :: r.path
  }

  predicate UniquePaths(rows: seq<Row>) {
    forall i, j :: 0 <= i < j < |rows| ==> rows[i].path != rows[j].path
  }

  predicate SortedByPath(rows: seq<Row>) {
    SortedBy(rows, PathKey)
  }

  /** `o` is a row of `rows` and no row of its path has a later timestamp. */
  predicate IsLatest(rows: seq<Row>, o: Row) {
    o in rows && forall r :: r in rows && r.path == o.path ==> r.ts <= o.ts
  }

  /** The deduplication contract: `out` holds one row per path of `input`, no other path,
      each a latest row of its path in `input`, sorted ascending by path. */
  predicate LatestPerPath(input: seq<Row>, out: seq<Row>) {
    && UniquePaths(out)
    && SortedByPath(out)
    && PathsOf(out) == PathsOf(input)
    && forall o :: o in out ==> IsLatest(input, o)
  }

  lemma {:induction false} PathsOfCons(x: Row, t: seq<Row>)
    ensures PathsOf([x] + t) == {x.path} + PathsOf(t)
  {
    assert forall r :: r in [x] + t <==> r == x || r in t;
  }

  /** There are never more distinct paths than rows. */
  lemma {:induction false} PathsBound(s: seq<Row>)
    ensures |PathsOf(s)| <= |s|
    ensures UniquePaths(s) ==> |PathsOf(s)| == |s|
  {
    if s != [] {
      assert s == [s[0]] + s[1..];
      PathsOfCons(s[0], s[1..]);
      PathsBound(s[1..]);
      if UniquePaths(s) {
        assert s[0].path !in PathsOf(s[1..]);
      }
    }
  }

  /** Removing one row from a table with unique paths leaves unique paths, none of them the
      removed row's. */
  lemma {:induction false} RemoveAt(b: seq<Row>, k: nat)
    requires UniquePaths(b) && k < |b|
    ensures var b' := b[..k] + b[k + 1..];
      && multiset(b') == multiset(b) - multiset{b[k]}
      && UniquePaths(b')
      && forall m :: 0 <= m < |b'| ==> b'[m].path != b[k].path
  {
    var b' := b[..k] + b[k + 1..];
    assert b == b[..k] + [b[k]] + b[k + 1..];
    RemoveAtPaths(b, k);
  }

  lemma {:induction false} RemoveAtPaths(b: seq<Row>, k: nat)
    requires UniquePaths(b) && k < |b|
    ensures var b' := b[..k] + b[k + 1..];
      && UniquePaths(b')
      && forall m :: 0 <= m < |b'| ==> b'[m].path != b[k].path
  {
    var b' := b[..k] + b[k + 1..];
    forall m | 0 <= m < |b'| ensures b'[m] == b[if m < k then m else m + 1] { }
  }

  /** A rearrangement of a table with unique paths has unique paths. */
  lemma {:induction false} UniqueByMultiset(a: seq<Row>, b: seq<Row>)
    requires multiset(a) == multiset(b) && UniquePaths(b)
    ensures UniquePaths(a)
  {
    if a != [] {
      var x := a[0];
      assert a == [x] + a[1..];
      assert x in multiset(b);
      var k :| 0 <= k < |b| && b[k] == x;
      var b' := b[..k] + b[k + 1..];
      RemoveAt(b, k);
      assert multiset(a[1..]) == multiset(b');
      UniqueByMultiset(a[1..], b');
      AbsentPath(a[1..], b', x.path);
      UniqueCons(a);
    }
  }

  /** A path no row of `t` has is the path of no row of a rearrangement of `t`. */
  lemma {:induction false} AbsentPath(s: seq<Row>, t: seq<Row>, p: string)
    requires multiset(s) == multiset(t)
    requires forall m :: 0 <= m < |t| ==> t[m].path != p
    ensures forall j :: 0 <= j < |s| ==> s[j].path != p
  {
    forall j | 0 <= j < |s| ensures s[j].path != p {
      assert s[j] in multiset(t);
    }
  }

  lemma {:induction false} UniqueCons(a: seq<Row>)
    requires a != [] && UniquePaths(a[1..])
    requires forall j :: 0 <= j < |a[1..]| ==> a[1..][j].path != a[0].path
    ensures UniquePaths(a)
  {
    forall i, j | 0 <= i < j < |a| ensures a[i].path != a[j].path {
      assert a[j] == a[1..][j - 1];
      if i > 0 {
        assert a[i] == a[1..][i - 1];
      }
    }
  }

  /** Dropping the first row keeps a table sorted by path. */
  lemma {:induction false} SortedTail(a: seq<Row>)
    requires SortedByPath(a) && a != []
    ensures SortedByPath(a[1..])
  {
    forall i, j | 0 <= i < j < |a[1..]| ensures Below(PathKey(a[1..][i]), PathKey(a[1..][j])) {
      assert a[1..][i] == a[i + 1] && a[1..][j] == a[j + 1];
    }
  }

  /** The first row of a table sorted by path has the smallest path. */
  lemma {:induction false} SortedHead(a: seq<Row>, m: nat)
    requires SortedByPath(a) && m < |a|
    ensures Below(a[0].path, a[m].path)
  {
    if m > 0 {
      assert Below(PathKey(a[0]), PathKey(a[m]));
    } else {
      BelowReflexive(a[0].path);
    }
  }

  /** Two tables with unique paths, the same rows and the same first row have the same rows
      after it. */
  lemma {:induction false} TailMembers(a: seq<Row>, b: seq<Row>)
    requires UniquePaths(a) && UniquePaths(b) && a != [] && b != [] && a[0] == b[0]
    requires forall x :: x in a <==> x in b
    ensures forall x :: x in a[1..] <==> x in b[1..]
  {
    forall x ensures x in a[1..] ==> x in b[1..] {
      if x in a[1..] {
        var j :| 0 <= j < |a[1..]| && a[1..][j] == x;
        assert a[j + 1] == x && x.path != a[0].path;
        assert x in b;
        var i :| 0 <= i < |b| && b[i] == x;
        assert b[1..][i - 1] == x;
      }
    }
    forall x ensures x in b[1..] ==> x in a[1..] {
      if x in b[1..] {
        var j :| 0 <= j < |b[1..]| && b[1..][j] == x;
        assert b[j + 1] == x && x.path != b[0].path;
        assert x in a;
        var i :| 0 <= i < |a| && a[i] == x;
        assert a[1..][i - 1] == x;
      }
    }
  }

  /** Two tables, each sorted by path with unique paths, that hold the same rows are equal:
      once the paths are unique, sorting by path leaves no freedom. */
  lemma {:induction false} SortedUniqueEqual(a: seq<Row>, b: seq<Row>)
    requires SortedByPath(a) && SortedByPath(b) && UniquePaths(a) && UniquePaths(b)
    requires forall x :: x in a <==> x in b
    ensures a == b
  {
    assert b != [] ==> b[0] in b;
    if a != [] {
      assert a[0] in b;
      var k :| 0 <= k < |b| && b[k] == a[0];
      assert b[0] in a;
      var m :| 0 <= m < |a| && a[m] == b[0];
      SortedHead(a, m);
      SortedHead(b, k);
      BelowAntisymmetric(a[0].path, b[0].path);
      assert m == 0;
      TailMembers(a, b);
      SortedTail(a);
      SortedTail(b);
      SortedUniqueEqual(a[1..], b[1..]);
      assert a == [a[0]] + a[1..] && b == [b[0]] + b[1..];
    }
  }

  /** Deduplication is idempotent: deduplicating a deduplicated table gives it back, for any
      admissible choice among tied rows. */
  lemma {:induction false} LatestIdempotent(input: seq<Row>, once: seq<Row>, twice: seq<Row>)
    requires LatestPerPath(input, once) && LatestPerPath(once, twice)
    ensures twice == once
  {
    forall x ensures x in twice <==> x in once {
      if x in once {
        assert x.path in PathsOf(twice);
        var o :| o in twice && o.path == x.path;
        assert o in once;
        var i :| 0 <= i < |once| && once[i] == o;
        var j :| 0 <= j < |once| && once[j] == x;
        assert i == j;
      }
    }
    SortedUniqueEqual(twice, once);
  }

  /** The deduplicated table has one row per distinct path of the input, hence never more
      rows than the input. */
  lemma {:induction false} LatestCount(input: seq<Row>, out: seq<Row>)
    requires LatestPerPath(input, out)
    ensures |out| == |PathsOf(input)| <= |input|
  {
    PathsBound(out);
    PathsBound(input);
  }

  /** Three rows, two of them for "A": the only admissible output keeps A's later row and B,
      in path order. */
  lemma {:induction false} ScenarioLatest(out: seq<Row>)
    requires LatestPerPath([Row("A", "A", "good", 10), Row("A", "A", "bad", 11), Row("B", "B", "good", 9)], out)
    ensures out == [Row("A", "A", "bad", 11), Row("B", "B", "good", 9)]
  {
    var input := [Row("A", "A", "good", 10), Row("A", "A", "bad", 11), Row("B", "B", "good", 9)];
    var a11, b9 := Row("A", "A", "bad", 11), Row("B", "B", "good", 9);
    var expected := [a11, b9];
    assert Below(PathKey(a11), PathKey(b9)) by { assert "A"[0] < "B"[0]; }
    assert SortedByPath(expected);
    assert forall x :: IsLatest(input, x) <==> x == a11 || x == b9 by {
      forall x ensures IsLatest(input, x) <==> x == a11 || x == b9 {
        if IsLatest(input, x) && x.path == "A" { assert a11 in input; }
      }
    }
    assert a11.path in PathsOf(out) by { assert a11 in input; }
    assert b9.path in PathsOf(out) by { assert b9 in input; }
    forall x ensures x in out <==> x in expected {
      if x in expected {
        var o :| o in out && o.path == x.path;
        assert IsLatest(input, o);
      }
    }
    SortedUniqueEqual(out, expected);
  }

  // ---- the pandas pipeline: sort_values("timestamp").groupby("image_path").tail(1)
  // ---- .sort_values("image_path")

  predicate TsSorted(s: seq<Row>) {
    forall i, j :: 0 <= i < j < |s| ==> s[i].ts <= s[j].ts
  }

  /** `byTs` is an order `sort_values("timestamp")` may return for `rows`: a rearrangement
      sorted by timestamp. The sort is not stable, so tied rows may come in any order. */
  predicate TsOrder(rows: seq<Row>, byTs: seq<Row>) {
    multiset(byTs) == multiset(rows) && TsSorted(byTs)
  }

  /** No row after position `k` of `s` has the path of the row at `k`. */
  predicate LastOfPath(s: seq<Row>, k: int)
    requires 0 <= k < |s|
  {
    forall j :: k < j < |s| ==> s[j].path != s[k].path
  }

  /** `groupby("image_path").tail(1)`: the last row of each path, in table order. */
  function KeepLast(s: seq<Row>): (r: seq<Row>)
    ensures forall i :: 0 <= i < |r| ==> r[i] in s
    ensures PathsOf(r) == PathsOf(s)
    ensures UniquePaths(r)
  {
    if s == [] then []
    else
      assert s == [s[0]] + s[1..];
      PathsOfCons(s[0], s[1..]);
      var t := KeepLast(s[1..]);
      if s[0].path in PathsOf(s[1..]) then t
      else
        PathsOfCons(s[0], t);
        [s[0]] + t
  }

  /** Every row `tail(1)` keeps is the last row of its path in the table. */
  lemma {:induction false} KeepLastKeepsLast(s: seq<Row>)
    ensures forall o :: o in KeepLast(s) ==> exists k :: 0 <= k < |s| && s[k] == o && LastOfPath(s, k)
  {
    if s != [] {
      var t := KeepLast(s[1..]);
      KeepLastKeepsLast(s[1..]);
      forall o | o in KeepLast(s) ensures exists k :: 0 <= k < |s| && s[k] == o && LastOfPath(s, k) {
        if o in t {
          var k :| 0 <= k < |s[1..]| && s[1..][k] == o && LastOfPath(s[1..], k);
          assert s[k + 1] == o;
          assert forall j :: k + 1 < j < |s| ==> s[j] == s[1..][j - 1];
          assert LastOfPath(s, k + 1);
        } else {
          assert o == s[0] && s[0].path !in PathsOf(s[1..]);
          assert LastOfPath(s, 0) by {
            forall j | 0 < j < |s| ensures s[j].path != s[0].path {
              assert s[j] in s[1..];
            }
          }
        }
      }
    }
  }

  /** Every row `tail(1)` keeps from a timestamp-sorted table is a latest row of its path. */
  lemma {:induction false} KeepLastIsLatest(s: seq<Row>)
    requires TsSorted(s)
    ensures forall o :: o in KeepLast(s) ==> IsLatest(s, o)
  {
    if s != [] {
      assert s == [s[0]] + s[1..];
      KeepLastIsLatest(s[1..]);
      forall o | o in KeepLast(s) ensures IsLatest(s, o) {
        if s[0].path in PathsOf(s[1..]) || o != s[0] {
          assert o in KeepLast(s[1..]);
          assert IsLatest(s[1..], o);
          var i :| 0 <= i < |s[1..]| && s[1..][i] == o;
          assert s[0].ts <= s[i + 1].ts;
        } else {
          assert forall r :: r in s && r.path == o.path ==> r == s[0];
        }
      }
    }
  }

  /** The pandas deduplication of `rows`, given the order its timestamp sort produced. */
  function PandasLatest(rows: seq<Row>, byTs: seq<Row>): (r: seq<Row>)
    requires TsOrder(rows, byTs)
    ensures LatestPerPath(rows, r)
  {
    var kept := KeepLast(byTs);
    var r := SortBy(kept, PathKey);
    KeepLastIsLatest(byTs);
    UniqueByMultiset(r, kept);
    assert forall x :: x in r <==> x in kept by {
      forall x ensures x in r <==> x in kept {
        assert x in r <==> x in multiset(r);
        assert x in kept <==> x in multiset(kept);
      }
    }
    assert forall x :: x in byTs <==> x in rows by {
      forall x ensures x in byTs <==> x in rows {
        assert x in byTs <==> x in multiset(byTs);
        assert x in rows <==> x in multiset(rows);
      }
    }
    assert PathsOf(r) == PathsOf(kept);
    assert PathsOf(byTs) == PathsOf(rows);
    r
  }

  // ---- the quality distribution: a dict from quality to count, in first-appearance order

  /** Adds one to the count of `q`, appending `(q, 1)` when `q` is new. */
  function Bump(hist: seq<(string, nat)>, q: string): seq<(string, nat)> {
    if hist == [] then [(q, 1)]
    else if hist[0].0 == q then [(q, hist[0].1 + 1)] + hist[1..]
    else [hist[0]] + Bump(hist[1..], q)
  }

  /** The distribution after counting every row in order. */
  function Tally(rows: seq<Row>): seq<(string, nat)> {
    if rows == [] then []
    else Bump(Tally(rows[..|rows| - 1]), rows[|rows| - 1].quality)
  }

  /** The qualities a distribution has an entry for. */
  function Keys(hist: seq<(string, nat)>): set<string> {
    if hist == [] then {} else {hist[0].0} + Keys(hist[1..])
  }

  /** No quality has two entries. */
  predicate DistinctKeys(hist: seq<(string, nat)>) {
    hist == [] || (hist[0].0 !in Keys(hist[1..]) && DistinctKeys(hist[1..]))
  }

  /** No entry holds a zero count. */
  predicate Positive(hist: seq<(string, nat)>) {
    hist == [] || (hist[0].1 > 0 && Positive(hist[1..]))
  }

  /** The count `hist` holds for `q` (0 when absent). */
  function Lookup(hist: seq<(string, nat)>, q: string): nat {
    if hist == [] then 0
    else if hist[0].0 == q then hist[0].1
    else Lookup(hist[1..], q)
  }

  function Total(hist: seq<(string, nat)>): nat {
    if hist == [] then 0 else hist[0].1 + Total(hist[1..])
  }

  function Qualities(rows: seq<Row>): set<string> {
    set r | r in rows :: r.quality
  }

  /** The number of rows with quality `q`. */
  function CountQuality(rows: seq<Row>, q: string): nat {
    if rows == [] then 0
    else CountQuality(rows[..|rows| - 1], q) + (if rows[|rows| - 1].quality == q then 1 else 0)
  }

  lemma {:induction false} BumpFacts(hist: seq<(string, nat)>, q: string)
    ensures Keys(Bump(hist, q)) == Keys(hist) + {q}
    ensures DistinctKeys(hist) ==> DistinctKeys(Bump(hist, q))
    ensures Positive(hist) ==> Positive(Bump(hist, q))
    ensures forall x :: Lookup(Bump(hist, q), x) == Lookup(hist, x) + (if x == q then 1 else 0)
    ensures Total(Bump(hist, q)) == Total(hist) + 1
  {
    if hist != [] && hist[0].0 != q {
      BumpFacts(hist[1..], q);
    }
  }

  /** What the distribution means: one entry for each quality that occurs and no other, each
      holding the number of rows with that quality and never zero, the counts summing to the
      number of rows. */
  lemma {:induction false} TallyMeaning(rows: seq<Row>)
    ensures DistinctKeys(Tally(rows)) && Positive(Tally(rows))
    ensures Keys(Tally(rows)) == Qualities(rows)
    ensures forall q :: Lookup(Tally(rows), q) == CountQuality(rows, q)
    ensures Total(Tally(rows)) == |rows|
  {
    if rows != [] {
      var prefix := rows[..|rows| - 1];
      var last := rows[|rows| - 1];
      assert rows == prefix + [last];
      TallyMeaning(prefix);
      BumpFacts(Tally(prefix), last.quality);
      assert Qualities(rows) == Qualities(prefix) + {last.quality};
    }
  }

  lemma {:induction false} KeysHoldEntries(hist: seq<(string, nat)>, i: nat)
    requires i < |hist|
    ensures hist[i].0 in Keys(hist)
  {
    if i > 0 {
      KeysHoldEntries(hist[1..], i - 1);
    }
  }

  /** Each entry of a distribution with distinct keys holds the count `Lookup` finds for it. */
  lemma {:induction false} LookupEntry(hist: seq<(string, nat)>, i: nat)
    requires DistinctKeys(hist) && i < |hist|
    ensures Lookup(hist, hist[i].0) == hist[i].1
  {
    if i > 0 {
      KeysHoldEntries(hist[1..], i - 1);
      LookupEntry(hist[1..], i - 1);
    }
  }

  /** The report of a deduplication of `input` into `out`. */
  function MakeReport(outputFile: string, input: seq<Row>, out: seq<Row>): Report {
    Report(outputFile, |input|, |out|, |input| - |out|, Tally(out), out)
  }

  /** The report of a deduplication is consistent: nothing removed is negative, removed and
      kept rows add up to the input, and the distribution counts the kept rows exactly. */
  lemma {:induction false} ReportConsistent(outputFile: string, input: seq<Row>, out: seq<Row>)
    requires LatestPerPath(input, out)
    ensures var rep := MakeReport(outputFile, input, out);
      && rep.removedCount >= 0
      && rep.deduplicatedCount + rep.removedCount == rep.originalCount == |input|
      && rep.deduplicatedCount == |PathsOf(input)|
      && Total(rep.distribution) == rep.deduplicatedCount
      && DistinctKeys(rep.distribution)
      && forall i :: 0 <= i < |rep.distribution| ==>
           rep.distribution[i].1 == CountQuality(out, rep.distribution[i].0)
  {
    LatestCount(input, out);
    TallyMeaning(out);
    forall i | 0 <= i < |Tally(out)| ensures Tally(out)[i].1 == CountQuality(out, Tally(out)[i].0) {
      LookupEntry(Tally(out), i);
    }
  }

  // ---- the default output name: f"{os.path.splitext(input_file)[0]}_deduplicated_{stamp}.csv"

  predicate AllDots(s: string) { forall i :: 0 <= i < |s| ==> s[i] == '.' }

  predicate NoDotOrSlash(s: string) { forall i :: 0 <= i < |s| ==> s[i] != '.' && s[i] != '/' }

  /** A '/' after the last '.' leaves no dot followed only by name characters. */
  lemma SlashAfterLastDot(p: string, dot: nat)
    requires dot < |p| && '/' in p[dot + 1..] && '.' !in p[dot + 1..]
    ensures forall k :: 0 <= k < |p| && p[k] == '.' ==> !NoDotOrSlash(p[k + 1..])
  {
    forall k | 0 <= k < |p| && p[k] == '.' ensures !NoDotOrSlash(p[k + 1..]) {
      var s :| dot + 1 <= s < |p| && p[s] == '/';
      assert forall j :: dot < j < |p| ==> p[dot + 1..][j - dot - 1] == p[j];
      assert forall j :: k < j < |p| ==> p[k + 1..][j - k - 1] == p[j];
    }
  }

  /** Only the last '.' can be followed by name characters alone. */
  lemma OnlyLastDot(p: string, dot: nat)
    requires dot < |p| && p[dot] == '.' && '.' !in p[dot + 1..]
    ensures forall k :: 0 <= k < |p| && p[k] == '.' && NoDotOrSlash(p[k + 1..]) ==> k == dot
  {
    forall k | 0 <= k < |p| && p[k] == '.' && NoDotOrSlash(p[k + 1..]) ensures k == dot {
      assert forall j :: dot < j < |p| ==> p[dot + 1..][j - dot - 1] == p[j];
      assert forall j :: k < j < |p| ==> p[k + 1..][j - k - 1] == p[j];
    }
  }

  /** `os.path.splitext(p)[0]` for POSIX paths: `p` without its extension, the extension being
      the text from the last '.' of the last path component on, unless only dots precede that
      '.' in the component (so ".bashrc" and "..x" have none). */
  function SplitExtRoot(p: string): (root: string)
    ensures |root| <= |p| && root == p[..|root|]
    ensures root != p ==>
              && p[|root|] == '.' && NoDotOrSlash(p[|root| + 1..])
              && !AllDots(AfterLast(root, {'/'}))
    ensures root == p ==>
              forall k :: 0 <= k < |p| && p[k] == '.' && NoDotOrSlash(p[k + 1..])
                ==> AllDots(AfterLast(p[..k], {'/'}))
  {
    var ext := AfterLast(p, {'.'});
    if |ext| == |p| then
      p
    else
      var dot := |p| - |ext| - 1;
      assert p[dot + 1..] == ext;
      assert '.' !in ext;
      var stem := AfterLast(p[..dot], {'/'});
      if '/' in ext then
        SlashAfterLastDot(p, dot);
        p
      else if AllDots(stem) then
        OnlyLastDot(p, dot);
        p
      else
        assert p[..dot] == p[..|p[..dot]|];
        p[..dot]
  }

  function DefaultOutputName(inputFile: string, stamp: string): string {
    SplitExtRoot(inputFile) + "_deduplicated_" + stamp + ".csv"
  }

  /** The whole pandas deduplication (server.py's `deduplicate_with_pandas`, and the body of
      deduplicate_csv.py's `deduplicate_annotations`): schema check, then the pipeline, the
      output name and the report. */
  function PandasDeduplicate(sheet: Sheet, inputFile: string, outputFile: Option<string>,
                             stamp: string, byTs: seq<Row>): (r: Result<Report, DedupError>)
    requires TsOrder(sheet.rows, byTs)
    ensures r.Failure? <==> Missing(sheet.columns) != []
    ensures r.Failure? ==> r.error == MissingColumns(Missing(sheet.columns))
    ensures r.Success? ==>
              && LatestPerPath(sheet.rows, r.value.rows)
              && r.value.originalCount == |sheet.rows|
              && r.value.deduplicatedCount == |r.value.rows| == |PathsOf(sheet.rows)|
              && r.value.removedCount == |sheet.rows| - |r.value.rows| >= 0
              && r.value.distribution == Tally(r.value.rows)
              && (forall q :: Lookup(r.value.distribution, q) == CountQuality(r.value.rows, q))
              && Total(r.value.distribution) == r.value.deduplicatedCount
              && r.value.outputFile == (if outputFile.Some? then outputFile.value
                                        else DefaultOutputName(inputFile, stamp))
  {
    var missing := Missing(sheet.columns);
    if missing != [] then Failure(MissingColumns(missing))
    else
      var out := PandasLatest(sheet.rows, byTs);
      var name := if outputFile.Some? then outputFile.value else DefaultOutputName(inputFile, stamp);
      ReportConsistent(name, sheet.rows, out);
      TallyMeaning(out);
      Success(MakeReport(name, sheet.rows, out))
  }
}
