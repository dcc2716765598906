/** The annotation server's logic (server.py): which files are images, the image listing of a
    folder, appending annotations to the CSV file, and the two deduplicators with their
    dispatch. Routes, file serving and the file system itself are outside the model: the
    walked paths, whether a file exists and the current time stamp come in as parameters. */
module Server {
  import opened Wrappers
  import opened Text
  import opened Sequences
  import opened Annotations

  const SupportedFormats: set<string> := {".jpg", ".jpeg", ".png", ".gif", ".bmp", ".tiff", ".webp"}

  // ---- is_image_file: Path(file_path).suffix.lower() in SUPPORTED_FORMATS

  /** `p` split at every '/' (`p.split("/")`). */
  function SplitSlash(p: string): (parts: seq<string>)
    ensures |parts| >= 1 && parts[|parts| - 1] == AfterLast(p, {'/'})
  {
    if p == [] then [""]
    else
      var init := SplitSlash(p[..|p| - 1]);
      if p[|p| - 1] == '/' then init + [""]
      else init[..|init| - 1] + [init[|init| - 1] + [p[|p| - 1]]]
  }

  /** `"/".join(parts)`. */
  function JoinSlash(parts: seq<string>): string
    requires |parts| >= 1
  {
    if |parts| == 1 then parts[0] else JoinSlash(parts[..|parts| - 1]) + "/" + parts[|parts| - 1]
  }

  predicate SlashFree(parts: seq<string>) {
    forall i :: 0 <= i < |parts| ==> '/' !in parts[i]
  }

  /** No piece of a split holds a '/'. */
  lemma {:induction false} SplitSlashFree(p: string)
    ensures SlashFree(SplitSlash(p))
  {
    if p != [] {
      var q := p[..|p| - 1];
      var c := p[|p| - 1];
      var init := SplitSlash(q);
      var n := |init|;
      SplitSlashFree(q);
      if c != '/' {
        var parts := init[..n - 1] + [init[n - 1] + [c]];
        assert SplitSlash(p) == parts;
        assert forall i :: 0 <= i < n - 1 ==> parts[i] == init[i];
        assert parts[n - 1] == init[n - 1] + [c];
      }
    }
  }

  /** A new empty last piece adds a '/' to the join. */
  lemma {:induction false} JoinSlashEmpty(parts: seq<string>)
    requires |parts| >= 1
    ensures JoinSlash(parts + [""]) == JoinSlash(parts) + "/"
  {
    assert (parts + [""])[..|parts|] == parts;
  }

  /** A character added to the last piece is added to the end of the join. */
  lemma {:induction false} JoinSlashExtend(parts: seq<string>, c: char)
    requires |parts| >= 1
    ensures JoinSlash(parts[..|parts| - 1] + [parts[|parts| - 1] + [c]]) == JoinSlash(parts) + [c]
  {
    var n := |parts|;
    var longer := parts[..n - 1] + [parts[n - 1] + [c]];
    assert longer[..n - 1] == parts[..n - 1];
  }

  /** Joining the pieces of a split with '/' gives the path back. */
  lemma {:induction false} SplitSlashJoin(p: string)
    ensures JoinSlash(SplitSlash(p)) == p
  {
    if p != [] {
      var q := p[..|p| - 1];
      SplitSlashJoin(q);
      assert p == q + [p[|p| - 1]];
      if p[|p| - 1] == '/' {
        JoinSlashEmpty(SplitSlash(q));
      } else {
        JoinSlashExtend(SplitSlash(q), p[|p| - 1]);
      }
    }
  }

  predicate IsNamePart(c: string) { c != "" && c != "." }

  /** The components a POSIX `PurePath` keeps: the pieces between slashes, without the empty
      ones and the "." ones. */
  function Components(p: string): seq<string> {
    Filter(SplitSlash(p), IsNamePart)
  }

  /** The last component `PurePath` keeps, or empty when it keeps none. */
  function LastComponent(p: string): string {
    var cs := Components(p);
    if cs == [] then "" else cs[|cs| - 1]
  }

  /** `PurePosixPath(p).name`, computed from the end: trailing slashes and "." components are
      skipped, then the text after the last '/' is the name. */
  function FinalComponent(p: string): (name: string)
    ensures forall i :: 0 <= i < |name| ==> name[i] != '/'
  {
    if p == [] then []
    else if p[|p| - 1] == '/' then FinalComponent(p[..|p| - 1])
    else if p[|p| - 1] == '.' && (|p| == 1 || p[|p| - 2] == '/') then FinalComponent(p[..|p| - 1])
    else AfterLast(p, {'/'})
  }

  lemma {:induction false} FilterSkipLast(parts: seq<string>, last: string)
    requires !IsNamePart(last)
    ensures Filter(parts + [last], IsNamePart) == Filter(parts, IsNamePart)
  {
    assert (parts + [last])[..|parts|] == parts;
  }

  lemma {:induction false} FilterKeepLast(parts: seq<string>, last: string)
    requires IsNamePart(last)
    ensures Filter(parts + [last], IsNamePart) == Filter(parts, IsNamePart) + [last]
  {
    assert (parts + [last])[..|parts|] == parts;
  }

  lemma {:induction false} SlashEnded(q: string)
    requires q == [] || q[|q| - 1] == '/'
    ensures AfterLast(q, {'/'}) == ""
    ensures var init := SplitSlash(q); init == init[..|init| - 1] + [""]
  {
  }

  lemma {:induction false} SplitSlashDot(q: string)
    requires q == [] || q[|q| - 1] == '/'
    ensures var init := SplitSlash(q); SplitSlash(q + ['.']) == init[..|init| - 1] + ["."]
  {
    assert (q + ['.'])[..|q|] == q;
    SlashEnded(q);
  }

  /** A trailing "." component adds nothing to the kept components. */
  lemma {:induction false} DotComponent(q: string)
    requires q == [] || q[|q| - 1] == '/'
    ensures Components(q + ['.']) == Components(q)
  {
    var init := SplitSlash(q);
    var front := init[..|init| - 1];
    SlashEnded(q);
    SplitSlashDot(q);
    FilterSkipLast(front, "");
    FilterSkipLast(front, ".");
  }

  /** The last piece of a path that ends in a name character is a kept component. */
  lemma {:induction false} NameEnded(p: string)
    requires p != [] && p[|p| - 1] != '/'
    requires !(p[|p| - 1] == '.' && (|p| == 1 || p[|p| - 2] == '/'))
    ensures Components(p) == Components(p)[..|Components(p)| - 1] + [AfterLast(p, {'/'})]
  {
    var c := AfterLast(p, {'/'});
    var parts := SplitSlash(p);
    assert c != "";
    assert parts == parts[..|parts| - 1] + [c];
    FilterKeepLast(parts[..|parts| - 1], c);
  }

  /** A trailing '/' adds nothing to the kept components. */
  lemma {:induction false} SlashComponent(q: string)
    ensures Components(q + ['/']) == Components(q)
  {
    assert (q + ['/'])[..|q|] == q;
    FilterSkipLast(SplitSlash(q), "");
  }

  /** One step of `FinalComponent`: the three ways a path can end. */
  lemma {:induction false} LastSlashStep(p: string)
    requires p != [] && p[|p| - 1] == '/'
    requires FinalComponent(p[..|p| - 1]) == LastComponent(p[..|p| - 1])
    ensures FinalComponent(p) == LastComponent(p)
  {
    var q := p[..|p| - 1];
    assert p == q + ['/'];
    SlashComponent(q);
  }

  /** A trailing "." component leaves the last kept component as it was. */
  lemma {:induction false} DotEnded(p: string)
    requires p != [] && p[|p| - 1] == '.' && (|p| == 1 || p[|p| - 2] == '/')
    ensures LastComponent(p) == LastComponent(p[..|p| - 1])
  {
    var q := p[..|p| - 1];
    assert p == q + ['.'];
    DotComponent(q);
  }

  lemma {:induction false} LastDotStep(p: string)
    requires p != [] && p[|p| - 1] == '.' && (|p| == 1 || p[|p| - 2] == '/')
    requires FinalComponent(p[..|p| - 1]) == LastComponent(p[..|p| - 1])
    ensures FinalComponent(p) == LastComponent(p)
  {
    DotEnded(p);
  }

  lemma {:induction false} LastNameStep(p: string)
    requires p != [] && p[|p| - 1] != '/'
    requires !(p[|p| - 1] == '.' && (|p| == 1 || p[|p| - 2] == '/'))
    ensures FinalComponent(p) == LastComponent(p)
  {
    NameEnded(p);
  }

  /** The name is the last component `PurePath` keeps, or empty when it keeps none. */
  lemma {:induction false} FinalComponentIsLastComponent(p: string)
    ensures FinalComponent(p) == LastComponent(p)
  {
    if p != [] {
      var q := p[..|p| - 1];
      if p[|p| - 1] == '/' {
        FinalComponentIsLastComponent(q);
        LastSlashStep(p);
      } else if p[|p| - 1] == '.' && (|p| == 1 || p[|p| - 2] == '/') {
        FinalComponentIsLastComponent(q);
        LastDotStep(p);
      } else {
        LastNameStep(p);
      }
    }
  }

  /** `PurePath.suffix` of a name: from its last '.' on, when that '.' is neither the first
      nor the last character; empty otherwise. */
  function Suffix(name: string): (ext: string)
    ensures ext == [] || (|ext| >= 2 && ext[0] == '.' && |ext| < |name| && ext == name[|name| - |ext|..])
    ensures forall i :: 0 < i < |ext| ==> ext[i] != '.'
  {
    var tail := AfterLast(name, {'.'});
    if |tail| < |name| && |tail| > 0 && |tail| + 1 < |name| then name[|name| - |tail| - 1..] else ""
  }

  predicate IsImageFile(p: string) {
    Lower(Suffix(FinalComponent(p))) in SupportedFormats
  }

  lemma FormatShape(f: string)
    requires f in SupportedFormats
    ensures |f| >= 4 && f[0] == '.'
    ensures forall i :: 0 < i < |f| ==> f[i] != '.'
  {
  }

  /** A name whose last '.' sits at `k`, strictly inside it, has the suffix starting at `k`. */
  lemma SuffixAt(name: string, k: nat)
    requires 0 < k < |name| - 1 && name[k] == '.'
    requires forall j :: k < j < |name| ==> name[j] != '.'
    ensures Suffix(name) == name[k..]
  {
  }

  /** A supported extension at the end of a name, after a non-empty stem, is its suffix. */
  lemma StemAndFormat(name: string, k: nat)
    requires 0 < k < |name| && Lower(name[k..]) in SupportedFormats
    ensures Lower(Suffix(name)) in SupportedFormats
  {
    var f := Lower(name[k..]);
    FormatShape(f);
    assert name[k] == '.' by { assert LowerChar(name[k..][0]) == '.'; }
    forall j | k < j < |name| ensures name[j] != '.' {
      assert LowerChar(name[k..][j - k]) == f[j - k];
    }
    SuffixAt(name, k);
  }

  /** A path is an image file exactly when its name is some non-empty stem followed by one of
      the supported extensions, in any letter case. */
  lemma {:induction false} IsImageFileIff(p: string)
    ensures var name := FinalComponent(p);
      IsImageFile(p) <==> exists k :: 0 < k < |name| && Lower(name[k..]) in SupportedFormats
  {
    var name := FinalComponent(p);
    if IsImageFile(p) {
      var ext := Suffix(name);
      var k := |name| - |ext|;
      assert name[k..] == ext;
    }
    if exists k :: 0 < k < |name| && Lower(name[k..]) in SupportedFormats {
      var k :| 0 < k < |name| && Lower(name[k..]) in SupportedFormats;
      StemAndFormat(name, k);
    }
  }

  // ---- get_image_files over the paths os.walk yields

  function Identity(s: string): string { s }

  /** The folder's image files, sorted: every walked path that is an image file, as often as
      it was walked, and nothing else. A folder that does not exist lists nothing. */
  method GetImageFiles(folderExists: bool, walked: seq<string>) returns (images: seq<string>)
    ensures !folderExists ==> images == []
    ensures folderExists ==> SortedBy(images, Identity)
    ensures folderExists ==>
              forall p :: multiset(images)[p] == if IsImageFile(p) then multiset(walked)[p] else 0
  {
    if !folderExists {
      return [];
    }
    var found: seq<string> := [];
    var i := 0;
    while i < |walked|
      invariant 0 <= i <= |walked|
      invariant found == Filter(walked[..i], IsImageFile)
    {
      assert walked[..i + 1][..i] == walked[..i];
      if IsImageFile(walked[i]) {
        found := found + [walked[i]];
      }
      i := i + 1;
    }
    assert walked[..i] == walked;
    images := SortBy(found, Identity);
    forall p ensures multiset(images)[p] == if IsImageFile(p) then multiset(walked)[p] else 0 {
      FilterCount(walked, IsImageFile, p);
    }
  }

  // ---- save_to_csv: append one line per annotation, header first when the file is new

  /** The annotation a client sends for one image. */
  datatype Mark = Mark(quality: string, timestamp: string)

  /** A line of the CSV file. */
  datatype Line =
    | Header
    | Record(imagePath: string, imageName: string, quality: string, timestamp: string)

  /** `os.path.basename` for POSIX paths. */
  function Basename(p: string): (b: string)
    ensures |b| <= |p| && b == p[|p| - |b|..]
    ensures forall i :: 0 <= i < |b| ==> b[i] != '/'
    ensures |b| < |p| ==> p[|p| - |b| - 1] == '/'
  {
    AfterLast(p, {'/'})
  }

  /** The CSV record written for one annotation. */
  function RecordOf(entry: (string, Mark)): Line {
    Record(entry.0, Basename(entry.0), entry.1.quality, entry.1.timestamp)
  }

  function RecordsOf(annotations: seq<(string, Mark)>): (lines: seq<Line>)
    ensures |lines| == |annotations|
    ensures forall k :: 0 <= k < |annotations| ==> lines[k] == RecordOf(annotations[k])
  {
    seq(|annotations|, k requires 0 <= k < |annotations| => RecordOf(annotations[k]))
  }

  lemma {:induction false} RecordsOfPrefix(annotations: seq<(string, Mark)>, i: nat)
    requires i < |annotations|
    ensures RecordsOf(annotations[..i + 1]) == RecordsOf(annotations[..i]) + [RecordOf(annotations[i])]
  {
    var a := RecordsOf(annotations[..i + 1]);
    var b := RecordsOf(annotations[..i]) + [RecordOf(annotations[i])];
    assert |a| == |b|;
    forall k | 0 <= k < |a| ensures a[k] == b[k] {
      assert annotations[..i + 1][k] == annotations[k];
      if k < i {
        assert annotations[..i][k] == annotations[k];
      }
    }
  }

  /** The annotations file, `annotations.csv`: whether it exists and its lines. */
  class AnnotationFile {
    var present: bool
    var lines: seq<Line>

    constructor (present: bool, lines: seq<Line>)
      ensures this.present == present && this.lines == lines
    {
      this.present := present;
      this.lines := lines;
    }

    /** Appends the header when the file did not exist, then one record per annotation, in
        the order given; what was in the file stays as it was. */
    method SaveToCsv(annotations: seq<(string, Mark)>)
      modifies this
      ensures present
      ensures lines == old(lines) + (if old(present) then [] else [Header]) + RecordsOf(annotations)
    {
      ghost var start := lines + (if present then [] else [Header]);
      var fileExists := present;
      if !fileExists {
        lines := lines + [Header];
        present := true;
      }
      assert lines == start;
      var i := 0;
      while i < |annotations|
        invariant 0 <= i <= |annotations|
        invariant present
        invariant lines == start + RecordsOf(annotations[..i])
      {
        RecordsOfPrefix(annotations, i);
        var record := RecordOf(annotations[i]);
        assert start + RecordsOf(annotations[..i + 1]) == lines + [record];
        lines := lines + [record];
        i := i + 1;
      }
      assert annotations[..i] == annotations;
      assert lines == start + RecordsOf(annotations);
    }
  }

  // ---- deduplicate_with_stdlib

  /** The dict `image_groups` after scanning `rows` in order: a row replaces the kept row of
      its path only when its timestamp is strictly later. */
  function Groups(rows: seq<Row>): map<string, Row> {
    if rows == [] then map[]
    else
      var g := Groups(rows[..|rows| - 1]);
      var r := rows[|rows| - 1];
      if r.path !in g || r.ts > g[r.path].ts then g[r.path := r] else g
  }

  /** `o` is the first row of its path to carry its timestamp: every earlier row of the path
      is strictly older. */
  predicate FirstOfLatest(rows: seq<Row>, o: Row) {
    exists i :: 0 <= i < |rows| && rows[i] == o && EarlierOlder(rows, i)
  }

  predicate EarlierOlder(rows: seq<Row>, i: nat)
    requires i < |rows|
  {
    forall j :: 0 <= j < i && rows[j].path == rows[i].path ==> rows[j].ts < rows[i].ts
  }

  /** `image_groups` has one key per path of the input. */
  lemma {:induction false} GroupsKeys(rows: seq<Row>)
    ensures Groups(rows).Keys == PathsOf(rows)
  {
    if rows != [] {
      var s := rows[..|rows| - 1];
      assert rows == s + [rows[|rows| - 1]];
      GroupsKeys(s);
      assert PathsOf(rows) == PathsOf(s) + {rows[|rows| - 1].path};
    }
  }

  /** The row a scan step stores when it replaces the kept one. */
  lemma {:induction false} GroupsReplaced(rows: seq<Row>)
    requires rows != []
    requires var g := Groups(rows[..|rows| - 1]); var r := rows[|rows| - 1];
      r.path !in g || r.ts > g[r.path].ts
    requires var g := Groups(rows[..|rows| - 1]); var r := rows[|rows| - 1];
      r.path in g ==> IsLatest(rows[..|rows| - 1], g[r.path]) && g[r.path].path == r.path
    ensures var r := rows[|rows| - 1]; IsLatest(rows, r) && FirstOfLatest(rows, r)
  {
    var s := rows[..|rows| - 1];
    var r := rows[|rows| - 1];
    GroupsKeys(s);
    assert forall x :: x in s && x.path == r.path ==> x.ts < r.ts by {
      forall x | x in s && x.path == r.path ensures x.ts < r.ts {
        assert r.path in PathsOf(s);
      }
    }
    assert rows == s + [r];
    forall j | 0 <= j < |rows| - 1 && rows[j].path == r.path ensures rows[j].ts < r.ts {
      assert rows[j] == s[j];
    }
    assert EarlierOlder(rows, |rows| - 1);
  }

  /** A kept row that a scan step leaves in place. */
  lemma {:induction false} GroupsKept(rows: seq<Row>, p: string)
    requires rows != []
    requires var g := Groups(rows[..|rows| - 1]); var r := rows[|rows| - 1];
      p in g && !(r.path == p && r.ts > g[p].ts)
    requires var s := rows[..|rows| - 1]; var o := Groups(s)[p];
      o.path == p && IsLatest(s, o) && FirstOfLatest(s, o)
    ensures var o := Groups(rows[..|rows| - 1])[p]; IsLatest(rows, o) && FirstOfLatest(rows, o)
  {
    var s := rows[..|rows| - 1];
    var o := Groups(s)[p];
    assert rows == s + [rows[|rows| - 1]];
    var i :| 0 <= i < |s| && s[i] == o && EarlierOlder(s, i);
    assert rows[i] == o;
    assert EarlierOlder(rows, i) by {
      forall j | 0 <= j < i && rows[j].path == rows[i].path ensures rows[j].ts < rows[i].ts {
        assert rows[j] == s[j];
      }
    }
  }

  /** `image_groups` keeps, for each path, a latest row, and among tied latest rows the first
      met (the comparison is a strict `>`). */
  lemma {:induction false} GroupsMeaning(rows: seq<Row>)
    ensures Groups(rows).Keys == PathsOf(rows)
    ensures forall p :: p in Groups(rows) ==>
              && Groups(rows)[p].path == p
              && IsLatest(rows, Groups(rows)[p])
              && FirstOfLatest(rows, Groups(rows)[p])
  {
    GroupsKeys(rows);
    if rows != [] {
      var s := rows[..|rows| - 1];
      var r := rows[|rows| - 1];
      GroupsMeaning(s);
      var g := Groups(s);
      if r.path !in g || r.ts > g[r.path].ts {
        GroupsReplaced(rows);
      }
      forall p | p in Groups(rows) && !(p == r.path && (r.path !in g || r.ts > g[r.path].ts))
        ensures IsLatest(rows, Groups(rows)[p]) && FirstOfLatest(rows, Groups(rows)[p])
      {
        GroupsKept(rows, p);
      }
    }
  }

  /** The values of `image_groups`, in any order without repeats of a path, sorted by path:
      one first-met latest row per path. */
  lemma {:induction false} SortedGroups(records: seq<Row>, values: seq<Row>)
    requires UniquePaths(values) && PathsOf(values) == PathsOf(records)
    requires forall o :: o in values ==> IsLatest(records, o) && FirstOfLatest(records, o)
    ensures var kept := SortBy(values, PathKey);
      LatestPerPath(records, kept) && forall o :: o in kept ==> FirstOfLatest(records, o)
  {
    var kept := SortBy(values, PathKey);
    UniqueByMultiset(kept, values);
    forall x ensures x in kept <==> x in values {
      assert x in kept <==> x in multiset(kept);
      assert x in values <==> x in multiset(values);
    }
    assert PathsOf(kept) == PathsOf(values);
  }

  /** `list(image_groups.values())`: the kept rows in the dict's insertion order. */
  function ValuesInOrder(g: map<string, Row>, order: seq<string>): (values: seq<Row>)
    requires forall p :: p in order ==> p in g
    ensures |values| == |order|
    ensures forall k :: 0 <= k < |order| ==> values[k] == g[order[k]]
  {
    seq(|order|, k requires 0 <= k < |order| => g[order[k]])
  }

  /** The values of a map keyed by path, taken in an order that lists each key once: one row
      per key, each the map's row for its path. */
  lemma {:induction false} ValuesPaths(g: map<string, Row>, order: seq<string>)
    requires forall p :: p in g <==> p in order
    requires forall k, l :: 0 <= k < l < |order| ==> order[k] != order[l]
    requires forall p :: p in g ==> g[p].path == p
    ensures var values := ValuesInOrder(g, order);
      && UniquePaths(values) && PathsOf(values) == g.Keys
      && forall o :: o in values ==> o.path in g && o == g[o.path]
  {
    var values := ValuesInOrder(g, order);
    forall p | p in g ensures p in PathsOf(values) {
      var k :| 0 <= k < |order| && order[k] == p;
      assert values[k].path == p;
    }
  }

  /** The values of `image_groups`, taken in an order that lists each key once, are one
      first-met latest row per path of the input. */
  lemma {:induction false} GroupValues(records: seq<Row>, order: seq<string>)
    requires forall p :: p in Groups(records) <==> p in order
    requires forall k, l :: 0 <= k < l < |order| ==> order[k] != order[l]
    ensures var values := ValuesInOrder(Groups(records), order);
      && UniquePaths(values) && PathsOf(values) == PathsOf(records)
      && forall o :: o in values ==> IsLatest(records, o) && FirstOfLatest(records, o)
  {
    GroupsMeaning(records);
    ValuesPaths(Groups(records), order);
  }

  /** The loop of `deduplicate_with_stdlib` and the sort after it: one row per path, each the
      first-met latest row of its path, sorted by path. */
  method LatestRecords(records: seq<Row>) returns (kept: seq<Row>)
    ensures LatestPerPath(records, kept)
    ensures forall o :: o in kept ==> FirstOfLatest(records, o)
  {
    var groups: map<string, Row> := map[];
    var order: seq<string> := [];  // the dict's insertion order
    var i := 0;
    while i < |records|
      invariant 0 <= i <= |records|
      invariant groups == Groups(records[..i])
      invariant forall p :: p in groups <==> p in order
      invariant forall k, l :: 0 <= k < l < |order| ==> order[k] != order[l]
    {
      assert records[..i + 1][..i] == records[..i];
      var record := records[i];
      if record.path !in groups || record.ts > groups[record.path].ts {
        if record.path !in groups {
          order := order + [record.path];
        }
        groups := groups[record.path := record];
      }
      i := i + 1;
    }
    assert records[..i] == records;
    GroupValues(records, order);
    var values := ValuesInOrder(groups, order);
    SortedGroups(records, values);
    kept := SortBy(values, PathKey);
  }

  /** The dict `quality_counts` after counting every record in order. */
  method QualityCounts(records: seq<Row>) returns (hist: seq<(string, nat)>)
    ensures hist == Tally(records)
    ensures DistinctKeys(hist) && Positive(hist) && Keys(hist) == Qualities(records)
    ensures forall q :: Lookup(hist, q) == CountQuality(records, q)
    ensures Total(hist) == |records|
  {
    hist := [];
    var i := 0;
    while i < |records|
      invariant 0 <= i <= |records|
      invariant hist == Tally(records[..i])
    {
      assert records[..i + 1][..i] == records[..i];
      hist := Bump(hist, records[i].quality);
      i := i + 1;
    }
    assert records[..i] == records;
    TallyMeaning(records);
  }

  /** What `deduplicate_with_stdlib` gives for `sheet`. It checks no schema: a missing
      `image_path` or `timestamp` column fails on the first record, a missing `quality` column
      when counting qualities, and a table without rows never looks at a column. On success the
      report keeps one first-met latest row per path, sorted by path, with the counts, a
      distribution counting each quality of the kept rows, and the output name. */
  ghost predicate StdlibOutcome(sheet: Sheet, inputFile: string, outputFile: Option<string>, stamp: string,
                                r: Result<Report, DedupError>)
  {
    && (r.Failure? <==> sheet.rows != [] && !("image_path" in sheet.columns
                                              && "timestamp" in sheet.columns
                                              && "quality" in sheet.columns))
    && (r.Failure? ==> r.error == MissingKey(
          if "image_path" !in sheet.columns then "image_path"
          else if "timestamp" !in sheet.columns then "timestamp"
          else "quality"))
    && (r.Success? ==>
          && LatestPerPath(sheet.rows, r.value.rows)
          && (forall o :: o in r.value.rows ==> FirstOfLatest(sheet.rows, o))
          && r.value.originalCount == |sheet.rows|
          && r.value.deduplicatedCount == |r.value.rows| == |PathsOf(sheet.rows)|
          && r.value.removedCount == |sheet.rows| - |r.value.rows| >= 0
          && r.value.distribution == Tally(r.value.rows)
          && (forall q :: Lookup(r.value.distribution, q) == CountQuality(r.value.rows, q))
          && Total(r.value.distribution) == r.value.deduplicatedCount
          && r.value.outputFile == (if outputFile.Some? then outputFile.value
                                    else DefaultOutputName(inputFile, stamp)))
  }

  /** `deduplicate_with_stdlib`. */
  method DeduplicateWithStdlib(sheet: Sheet, inputFile: string, outputFile: Option<string>, stamp: string)
    returns (r: Result<Report, DedupError>)
    ensures StdlibOutcome(sheet, inputFile, outputFile, stamp, r)
  {
    var records := sheet.rows;
    if records != [] && "image_path" !in sheet.columns {
      return Failure(MissingKey("image_path"));
    }
    if records != [] && "timestamp" !in sheet.columns {
      return Failure(MissingKey("timestamp"));
    }
    var kept := LatestRecords(records);
    LatestCount(records, kept);
    assert records != [] ==> records[0].path in PathsOf(records);
    var name := if outputFile.Some? then outputFile.value else DefaultOutputName(inputFile, stamp);
    if kept != [] && "quality" !in sheet.columns {
      return Failure(MissingKey("quality"));
    }
    var hist := QualityCounts(kept);
    r := Success(Report(name, |records|, |kept|, |records| - |kept|, hist, kept));
  }

  /** `deduplicate_csv_file`: a missing input fails before anything is read; otherwise the
      pandas deduplicator runs when pandas is importable and the stdlib one when it is not.
      `byTs` is the order pandas' timestamp sort returns. */
  method DeduplicateCsvFile(inputExists: bool, pandasAvailable: bool, sheet: Sheet, inputFile: string,
                            outputFile: Option<string>, stamp: string, byTs: seq<Row>)
    returns (r: Result<Report, DedupError>)
    requires TsOrder(sheet.rows, byTs)
    ensures !inputExists ==> r == Failure(InputMissing)
    ensures inputExists && pandasAvailable ==> r == PandasDeduplicate(sheet, inputFile, outputFile, stamp, byTs)
    ensures inputExists && !pandasAvailable ==> StdlibOutcome(sheet, inputFile, outputFile, stamp, r)
    ensures r.Success? ==> inputExists && LatestPerPath(sheet.rows, r.value.rows)
  {
    if !inputExists {
      return Failure(InputMissing);
    }
    if pandasAvailable {
      r := PandasDeduplicate(sheet, inputFile, outputFile, stamp, byTs);
    } else {
      r := DeduplicateWithStdlib(sheet, inputFile, outputFile, stamp);
    }
  }
}
