/** The naming rules of dicomsort: where a DICOM file goes and what it is called,
    and which files of a directory walk are processed. */
module DicomSort {
  import opened Wrappers
  import opened Strings
  import opened Decimal

  const SeriesNumberTag := "00200011"
  const AcquisitionNumberTag := "00200012"
  const InstanceNumberTag := "00200013"
  const PatientNameTag := "00100010"
  const SeriesDescriptionTag := "0008103e"

  /** The header fields dicomsort reads; a field the file lacks is None. */
  datatype Header = Header(
    series: Option<nat>,
    acquisition: Option<nat>,
    instance: Option<nat>,
    patientName: Option<string>,
    seriesDescription: Option<string>)

  /** The `-i`, `-q` and `-n` switches (`recurse` is false exactly when `-n` is given). */
  datatype Options = Options(subjectDirs: bool, seriesDirs: bool, recurse: bool)

  /** Where a file goes: the directory chain, destination first, and the file name. */
  datatype Target = Target(dirs: seq<string>, fileName: string)

  type Triple = (nat, nat, nat)

  /** Order on (series, acquisition, instance): series first, then acquisition, then instance. */
  predicate TripleLess(x: Triple, y: Triple) {
    x.0 < y.0 || (x.0 == y.0 && (x.1 < y.1 || (x.1 == y.1 && x.2 < y.2)))
  }

  /** `str.isalnum`, restricted to ASCII letters and digits. */
  predicate IsAlnum(c: char) {
    ('a' <= c <= 'z') || ('A' <= c <= 'Z') || IsDigit(c)
  }

  predicate AllAlnum(s: string) {
    forall k :: 0 <= k < |s| ==> IsAlnum(s[k])
  }

  // ---------------------------------------------------------------------------
  // File name

  /** `dcmS<series>A<acquisition>I<instance>`, each number zero-padded to at least four digits. */
  function FileName(series: nat, acquisition: nat, instance: nat): (r: string)
    ensures |r| >= 18 && r[..4] == "dcmS"
  {
    "dcmS" + (ZeroPad(series, 4) + ("A" + (ZeroPad(acquisition, 4) + ("I" + ZeroPad(instance, 4)))))
  }

  /** Below 10000 every name has the same length, eighteen characters. */
  lemma FileNameLength(series: nat, acquisition: nat, instance: nat)
    requires series < 10000 && acquisition < 10000 && instance < 10000
    ensures |FileName(series, acquisition, instance)| == 18
  {
    ZeroPadWidth(series, 4);
    ZeroPadWidth(acquisition, 4);
    ZeroPadWidth(instance, 4);
  }

  /** The instance numeral ends the name. */
  lemma FileNameSuffix(series: nat, acquisition: nat, instance: nat)
    ensures FileName(series, acquisition, instance)
      == ("dcmS" + ZeroPad(series, 4) + "A" + ZeroPad(acquisition, 4) + "I") + ZeroPad(instance, 4)
  {
  }

  /** Reads the three numbers back out of a generated file name. */
  function ParseFileName(name: string): Option<Triple> {
    if |name| < 4 || name[..4] != "dcmS" then None
    else
      var (s, tail) :- SplitFirst(name[4..], 'A');
      var (a, i) :- SplitFirst(tail, 'I');
      var series :- ParseNat(s);
      var acquisition :- ParseNat(a);
      var instance :- ParseNat(i);
      Some((series, acquisition, instance))
  }

  /** The text before and after the first `c`, if there is one. */
  function SplitFirst(s: string, c: char): (r: Option<(string, string)>)
    ensures r.Some? ==> s == r.value.0 + [c] + r.value.1 && c !in r.value.0
  {
    if c !in s then None
    else
      var i := IndexOf(s, c);
      assert s == s[..i] + [c] + s[i + 1..];
      Some((s[..i], s[i + 1..]))
  }

  lemma SplitFirstAfter(a: string, c: char, b: string)
    requires c !in a
    ensures SplitFirst(a + [c] + b, c) == Some((a, b))
  {
    IndexOfAfterPrefix(a, c, b);
    var s := a + [c] + b;
    assert s[..|a|] == a && s[|a| + 1..] == b;
  }

  /** A padded numeral parses back to its number and holds no letter. */
  lemma ZeroPadParses(n: nat, w: nat)
    ensures ParseNat(ZeroPad(n, w)) == Some(n)
    ensures 'A' !in ZeroPad(n, w) && 'I' !in ZeroPad(n, w) && '_' !in ZeroPad(n, w)
  {
  }

  /** A file name determines the numbers it was made from: the letters `A` and `I`
      cannot occur in the digit runs, so they delimit them. */
  lemma FileNameRoundTrip(series: nat, acquisition: nat, instance: nat)
    ensures ParseFileName(FileName(series, acquisition, instance)) == Some((series, acquisition, instance))
  {
    var ps, pa, pi := ZeroPad(series, 4), ZeroPad(acquisition, 4), ZeroPad(instance, 4);
    ZeroPadParses(series, 4);
    ZeroPadParses(acquisition, 4);
    ZeroPadParses(instance, 4);
    var name := FileName(series, acquisition, instance);
    var tail := pa + ("I" + pi);
    assert name[4..] == ps + ("A" + tail);
    assert ps + ("A" + tail) == ps + ['A'] + tail;
    assert tail == pa + ['I'] + pi;
    SplitFirstAfter(ps, 'A', tail);
    SplitFirstAfter(pa, 'I', pi);
  }

  /** Distinct (series, acquisition, instance) triples give distinct file names. */
  lemma FileNameInjective(x: Triple, y: Triple)
    requires FileName(x.0, x.1, x.2) == FileName(y.0, y.1, y.2)
    ensures x == y
  {
    FileNameRoundTrip(x.0, x.1, x.2);
    FileNameRoundTrip(y.0, y.1, y.2);
  }

  /** Below 10000, string order of the padded numerals is numeric order, and equal
      numerals mean equal numbers. */
  lemma PaddedCompare(m: nat, n: nat)
    requires m < 10000 && n < 10000
    ensures |ZeroPad(m, 4)| == 4 && |ZeroPad(n, 4)| == 4
    ensures LexLess(ZeroPad(m, 4), ZeroPad(n, 4)) <==> m < n
    ensures ZeroPad(m, 4) == ZeroPad(n, 4) <==> m == n
  {
    ZeroPadWidth(m, 4);
    ZeroPadWidth(n, 4);
    LexLessIsNumeric(ZeroPad(m, 4), ZeroPad(n, 4));
  }

  /** `LexLess(p + b, p + d)` is decided by `b` and `d` alone. */
  lemma LexLessCommonPrefix(p: string, b: string, d: string)
    ensures LexLess(p + b, p + d) <==> LexLess(b, d)
  {
    LexLessConcat(p, b, p, d);
    LexLessIrreflexive(p);
  }

  /** After a common prefix, an equal-length field decides first and the rest breaks ties. */
  lemma LexLessField(p: string, a1: string, t1: string, a2: string, t2: string)
    requires |a1| == |a2|
    ensures LexLess(p + (a1 + t1), p + (a2 + t2)) <==> LexLess(a1, a2) || (a1 == a2 && LexLess(t1, t2))
  {
    LexLessCommonPrefix(p, a1 + t1, a2 + t2);
    LexLessConcat(a1, t1, a2, t2);
  }

  /** The purpose of the tool: for numbers below 10000, sorting the generated names
      alphabetically sorts the files by series, then acquisition, then instance. */
  lemma FileNameOrder(x: Triple, y: Triple)
    requires x.0 < 10000 && x.1 < 10000 && x.2 < 10000
    requires y.0 < 10000 && y.1 < 10000 && y.2 < 10000
    ensures LexLess(FileName(x.0, x.1, x.2), FileName(y.0, y.1, y.2)) <==> TripleLess(x, y)
  {
    var s1, a1, i1 := ZeroPad(x.0, 4), ZeroPad(x.1, 4), ZeroPad(x.2, 4);
    var s2, a2, i2 := ZeroPad(y.0, 4), ZeroPad(y.1, 4), ZeroPad(y.2, 4);
    PaddedCompare(x.0, y.0);
    PaddedCompare(x.1, y.1);
    PaddedCompare(x.2, y.2);
    LexLessField("dcmS", s1, "A" + (a1 + ("I" + i1)), s2, "A" + (a2 + ("I" + i2)));
    LexLessField("A", a1, "I" + i1, a2, "I" + i2);
    LexLessCommonPrefix("I", i1, i2);
  }

  /** The ordering promise stops at four digits: instance 10000 sorts before instance 9999. */
  lemma FileNameOrderFailsAtTenThousand()
    ensures TripleLess((1, 0, 9999), (1, 0, 10000))
    ensures LexLess(FileName(1, 0, 10000), FileName(1, 0, 9999))
  {
    var p := "dcmS" + ZeroPad(1, 4) + "A" + ZeroPad(0, 4) + "I";
    FileNameSuffix(1, 0, 10000);
    FileNameSuffix(1, 0, 9999);
    assert ZeroPad(10000, 4)[0] == '1' by {
      assert Digits(10000) == Digits(1000) + "0";
      assert Digits(1000) == Digits(100) + "0";
      assert Digits(100) == Digits(10) + "0";
      assert Digits(10) == Digits(1) + "0";
    }
    assert ZeroPad(9999, 4)[0] == '9' by {
      assert Digits(9999) == Digits(999) + "9";
      assert Digits(999) == Digits(99) + "9";
      assert Digits(99) == Digits(9) + "9";
    }
    LexLessCommonPrefix(p, ZeroPad(10000, 4), ZeroPad(9999, 4));
  }

  // ---------------------------------------------------------------------------
  // Directories

  /** The subject directory: the letters and digits of the patient name, in order,
      everything else dropped. */
  function SubjectDir(name: string): (r: string)
    ensures AllAlnum(r)
    ensures |r| <= |name|
    ensures forall k :: 0 <= k < |name| && IsAlnum(name[k]) ==> name[k] in r
    decreases |name|
  {
    if |name| == 0 then ""
    else
      var rest := SubjectDir(name[1..]);
      assert forall k :: 1 <= k < |name| ==> name[k] == name[1..][k - 1];
      (if IsAlnum(name[0]) then [name[0]] else "") + rest
  }

  /** The filter distributes over concatenation, so the kept characters stay in order. */
  lemma {:induction false} SubjectDirConcat(a: string, b: string)
    ensures SubjectDir(a + b) == SubjectDir(a) + SubjectDir(b)
    decreases |a|
  {
    if |a| > 0 {
      assert (a + b)[0] == a[0];
      assert (a + b)[1..] == a[1..] + b;
      SubjectDirConcat(a[1..], b);
    } else {
      assert a + b == b;
    }
  }

  /** A name made only of letters and digits is kept whole. */
  lemma {:induction false} SubjectDirKeepsAlnum(name: string)
    requires AllAlnum(name)
    ensures SubjectDir(name) == name
    decreases |name|
  {
    if |name| > 0 {
      SubjectDirKeepsAlnum(name[1..]);
    }
  }

  /** Any other character is dropped and nothing else changes. */
  lemma SubjectDirDropsOthers(a: string, c: char, b: string)
    requires !IsAlnum(c)
    ensures SubjectDir(a + [c] + b) == SubjectDir(a + b)
  {
    SubjectDirConcat(a + [c], b);
    SubjectDirConcat(a, [c]);
    SubjectDirConcat(a, b);
    assert SubjectDir([c]) == "" by {
      assert [c][1..] == "";
    }
  }

  /** `f"{series:02}_{description}"`. */
  function SeriesDir(series: nat, description: string): (r: string)
    ensures |r| >= 3 + |description| && r[|r| - |description|..] == description
  {
    ZeroPad(series, 2) + "_" + description
  }

  /** Reads the series number and description back out of a series directory name. */
  function ParseSeriesDir(dir: string): Option<(nat, string)> {
    var (n, description) :- SplitFirst(dir, '_');
    var series :- ParseNat(n);
    Some((series, description))
  }

  /** The series directory determines the series number and keeps the description verbatim,
      whatever characters the description holds. */
  lemma SeriesDirRoundTrip(series: nat, description: string)
    ensures ParseSeriesDir(SeriesDir(series, description)) == Some((series, description))
  {
    ZeroPadParses(series, 2);
    SplitFirstAfter(ZeroPad(series, 2), '_', description);
  }

  // ---------------------------------------------------------------------------
  // Target

  /** The fields a run with these switches reads unguarded: series and instance number
      always, the patient name with `-i`, the series description with `-q`. */
  predicate HasNeededFields(h: Header, opts: Options) {
    && h.series.Some?
    && h.instance.Some?
    && (opts.subjectDirs ==> h.patientName.Some?)
    && (opts.seriesDirs ==> h.seriesDescription.Some?)
  }

  /** The target of a file with header `h`: fails with the tag of the first field the
      run needs and the header lacks, as the unguarded lookups in the source do. */
  function TargetOf(dest: string, h: Header, opts: Options): (r: Result<Target>)
    ensures r.Ok? <==> HasNeededFields(h, opts)
    ensures h.series.None? ==> r == Err(SeriesNumberTag)
    ensures h.series.Some? && h.instance.None? ==> r == Err(InstanceNumberTag)
    ensures h.series.Some? && h.instance.Some? && opts.subjectDirs && h.patientName.None? ==> r == Err(PatientNameTag)
    ensures (h.series.Some? && h.instance.Some? && (opts.subjectDirs ==> h.patientName.Some?)
             && opts.seriesDirs && h.seriesDescription.None?) ==> r == Err(SeriesDescriptionTag)
    ensures r.Ok? ==> |r.value.dirs| >= 1 && r.value.dirs[0] == dest
  {
    if h.series.None? then Err(SeriesNumberTag)
    else if h.instance.None? then Err(InstanceNumberTag)
    else if opts.subjectDirs && h.patientName.None? then Err(PatientNameTag)
    else if opts.seriesDirs && h.seriesDescription.None? then Err(SeriesDescriptionTag)
    else
      var series := h.series.value;
      var subject := if opts.subjectDirs then [SubjectDir(h.patientName.value)] else [];
      var byDesc := if opts.seriesDirs then [SeriesDir(series, h.seriesDescription.value)] else [];
      Ok(Target([dest] + subject + byDesc, FileName(series, h.acquisition.GetOr(0), h.instance.value)))
  }

  /** The file name carries the series, acquisition (0 when absent) and instance numbers. */
  lemma TargetFileName(dest: string, h: Header, opts: Options)
    requires TargetOf(dest, h, opts).Ok?
    ensures ParseFileName(TargetOf(dest, h, opts).value.fileName) == Some((h.series.value, h.acquisition.GetOr(0), h.instance.value))
  {
    FileNameRoundTrip(h.series.value, h.acquisition.GetOr(0), h.instance.value);
  }

  /** The directory chain: destination, then the subject directory exactly when `-i`
      is given, then the series directory exactly when `-q` is given. */
  lemma TargetNesting(dest: string, h: Header, opts: Options)
    requires TargetOf(dest, h, opts).Ok?
    ensures var dirs := TargetOf(dest, h, opts).value.dirs;
      && |dirs| == 1 + (if opts.subjectDirs then 1 else 0) + (if opts.seriesDirs then 1 else 0)
      && (opts.subjectDirs ==> dirs[1] == SubjectDir(h.patientName.value))
      && (opts.seriesDirs ==> dirs[|dirs| - 1] == SeriesDir(h.series.value, h.seriesDescription.value))
  {
  }

  /** A file without an acquisition number goes where it would with acquisition number 0. */
  lemma MissingAcquisitionIsZero(dest: string, h: Header, opts: Options)
    ensures TargetOf(dest, h.(acquisition := None), opts) == TargetOf(dest, h.(acquisition := Some(0)), opts)
  {
  }

  /** Which fields a run needs depends on the switches: without `-i` the patient name
      is never read, without `-q` the series description is never read. */
  lemma UnusedFieldsIgnored(dest: string, h: Header, opts: Options, name: Option<string>, desc: Option<string>)
    requires !opts.subjectDirs && !opts.seriesDirs
    ensures TargetOf(dest, h.(patientName := name, seriesDescription := desc), opts) == TargetOf(dest, h, opts)
  {
  }

  // ---------------------------------------------------------------------------
  // Rendering a target as a path string

  /** Python's `os.path.join(a, b)` on POSIX. */
  function PathJoin(a: string, b: string): (r: string)
    ensures |b| > 0 && b[0] == '/' ==> r == b
    ensures |r| >= |b| && r[|r| - |b|..] == b
    ensures !(|b| > 0 && b[0] == '/') ==>
      && |a| + |b| <= |r| <= |a| + |b| + 1
      && r[..|a|] == a
      && (a != "" ==> r[|r| - |b| - 1] == '/')
    ensures !(|b| > 0 && b[0] == '/') && (a == "" || a[|a| - 1] == '/') ==> |r| == |a| + |b|
  {
    if |b| > 0 && b[0] == '/' then b
    else if a == "" || a[|a| - 1] == '/' then a + b
    else a + "/" + b
  }

  /** Joining an empty component only adds a trailing separator, which the next join
      would have added anyway. */
  lemma PathJoinEmpty(a: string, b: string)
    requires |b| > 0 && b[0] != '/'
    ensures PathJoin(PathJoin(a, ""), b) == PathJoin(a, b)
  {
  }

  /** The path string of a target: the directories and then the file name, joined in turn. */
  function PathOf(t: Target): (r: string)
    requires |t.dirs| >= 1
    ensures |r| >= |t.fileName| && r[|r| - |t.fileName|..] == t.fileName
  {
    JoinAll(t.dirs + [t.fileName])
  }

  function JoinAll(parts: seq<string>): string
    requires |parts| >= 1
    decreases |parts|
  {
    if |parts| == 1 then parts[0] else PathJoin(JoinAll(parts[..|parts| - 1]), parts[|parts| - 1])
  }

  predicate Absolute(s: string) {
    |s| > 0 && s[0] == '/'
  }

  /** Joining components none of which (after the first) is absolute keeps the first
      as a prefix. */
  lemma {:induction false} JoinAllPrefix(parts: seq<string>)
    requires |parts| >= 1
    requires forall i :: 1 <= i < |parts| ==> !Absolute(parts[i])
    ensures |JoinAll(parts)| >= |parts[0]| && JoinAll(parts)[..|parts[0]|] == parts[0]
    decreases |parts|
  {
    if |parts| > 1 {
      var init := parts[..|parts| - 1];
      JoinAllPrefix(init);
      var a := JoinAll(init);
      assert !Absolute(parts[|parts| - 1]);
      assert JoinAll(parts)[..|a|] == a;
      assert a[..|parts[0]|] == parts[0];
    }
  }

  /** The path of a target starts with the destination directory and ends with the file
      name, which follows a separator whenever the destination is not empty: every other
      component is relative, so none of them discards the destination. */
  lemma TargetPath(dest: string, h: Header, opts: Options)
    requires TargetOf(dest, h, opts).Ok?
    ensures var t := TargetOf(dest, h, opts).value;
      var p := PathOf(t);
      && |p| >= |dest| + |t.fileName|
      && p[..|dest|] == dest
      && p[|p| - |t.fileName|..] == t.fileName
      && (dest != "" ==> p[|p| - |t.fileName| - 1] == '/')
  {
    var t := TargetOf(dest, h, opts).value;
    TargetDirsRelative(dest, h, opts);
    assert t.fileName[0] == 'd';
    PathOfRelative(t);
  }

  /** A target whose components below the first are all relative: its path starts with
      the first directory and ends with the file name. */
  lemma PathOfRelative(t: Target)
    requires |t.dirs| >= 1 && !Absolute(t.fileName)
    requires forall i :: 1 <= i < |t.dirs| ==> !Absolute(t.dirs[i])
    ensures var p := PathOf(t);
      && |p| >= |t.dirs[0]| + |t.fileName|
      && p[..|t.dirs[0]|] == t.dirs[0]
      && (t.dirs[0] != "" ==> p[|p| - |t.fileName| - 1] == '/')
  {
    JoinAllPrefix(t.dirs);
    var a := JoinAll(t.dirs);
    var parts := t.dirs + [t.fileName];
    assert parts[..|parts| - 1] == t.dirs;
    assert PathOf(t) == PathJoin(a, t.fileName);
    var p := PathOf(t);
    assert p[..|a|] == a;
    assert p[..|t.dirs[0]|] == a[..|t.dirs[0]|];
  }

  /** Below the destination, every directory of a target is relative. */
  lemma TargetDirsRelative(dest: string, h: Header, opts: Options)
    requires TargetOf(dest, h, opts).Ok?
    ensures var dirs := TargetOf(dest, h, opts).value.dirs;
      forall i :: 1 <= i < |dirs| ==> !Absolute(dirs[i])
  {
    if opts.subjectDirs {
      var sub := SubjectDir(h.patientName.value);
      assert |sub| > 0 ==> IsAlnum(sub[0]);
    }
    if opts.seriesDirs {
      var sd := SeriesDir(h.series.value, h.seriesDescription.value);
      assert sd[0] == ZeroPad(h.series.value, 2)[0];
      assert IsDigit(sd[0]);
    }
  }

  /** With `-i`, a patient name without any letter or digit gives an empty subject
      directory, and the file lands exactly where it would without `-i`. */
  lemma EmptySubjectDirVanishes(dest: string, h: Header, opts: Options)
    requires opts.subjectDirs
    requires TargetOf(dest, h, opts).Ok?
    requires SubjectDir(h.patientName.value) == ""
    ensures PathOf(TargetOf(dest, h, opts).value) == PathOf(TargetOf(dest, h, opts.(subjectDirs := false)).value)
  {
    var t := TargetOf(dest, h, opts).value;
    var u := TargetOf(dest, h, opts.(subjectDirs := false)).value;
    var f := t.fileName;
    assert f[0] == 'd';
    assert JoinAll([dest, ""]) == PathJoin(dest, "") by {
      assert [dest, ""][..1] == [dest];
    }
    if opts.seriesDirs {
      var sd := SeriesDir(h.series.value, h.seriesDescription.value);
      assert sd[0] == ZeroPad(h.series.value, 2)[0];
      assert IsDigit(sd[0]);
      assert t.dirs == [dest] + [""] + [sd];
      assert u.dirs == [dest] + [] + [sd];
      assert t.dirs + [f] == [dest, "", sd, f];
      assert u.dirs + [f] == [dest, sd, f];
      assert [dest, "", sd, f][..3] == [dest, "", sd];
      assert [dest, "", sd][..2] == [dest, ""];
      assert [dest, sd, f][..2] == [dest, sd];
      assert [dest, sd][..1] == [dest];
      assert JoinAll([dest, "", sd, f]) == PathJoin(JoinAll([dest, "", sd]), f);
      assert JoinAll([dest, "", sd]) == PathJoin(JoinAll([dest, ""]), sd);
      assert JoinAll([dest, sd, f]) == PathJoin(JoinAll([dest, sd]), f);
      assert JoinAll([dest, sd]) == PathJoin(JoinAll([dest]), sd);
      PathJoinEmpty(dest, sd);
    } else {
      assert t.dirs == [dest] + [""] + [];
      assert u.dirs == [dest] + [] + [];
      assert t.dirs + [f] == [dest, "", f];
      assert u.dirs + [f] == [dest, f];
      assert [dest, "", f][..2] == [dest, ""];
      assert [dest, f][..1] == [dest];
      assert JoinAll([dest, "", f]) == PathJoin(JoinAll([dest, ""]), f);
      assert JoinAll([dest, f]) == PathJoin(JoinAll([dest]), f);
      PathJoinEmpty(dest, f);
    }
  }

  // ---------------------------------------------------------------------------
  // Walking the source directory

  /** One directory of `os.walk`: its path and the names of the files in it. */
  datatype WalkEntry = WalkEntry(root: string, files: seq<string>)

  datatype SourceFile = SourceFile(root: string, name: string)

  function FilesOf(e: WalkEntry): (r: seq<SourceFile>)
    ensures |r| == |e.files|
    ensures forall k :: 0 <= k < |r| ==> r[k] == SourceFile(e.root, e.files[k])
  {
    seq(|e.files|, k requires 0 <= k < |e.files| => SourceFile(e.root, e.files[k]))
  }

  /** Every file of the walk, directory by directory. */
  function AllFiles(walk: seq<WalkEntry>): seq<SourceFile>
    decreases |walk|
  {
    if |walk| == 0 then [] else FilesOf(walk[0]) + AllFiles(walk[1..])
  }

  /** The first directory of the walk whose path is exactly `source`. */
  function FirstAt(walk: seq<WalkEntry>, source: string): (r: Option<WalkEntry>)
    ensures r.Some? ==> r.value in walk && r.value.root == source
    ensures r.Some? ==> exists k :: 0 <= k < |walk| && walk[k] == r.value && forall j :: 0 <= j < k ==> walk[j].root != source
    ensures r.None? <==> forall k :: 0 <= k < |walk| ==> walk[k].root != source
    decreases |walk|
  {
    if |walk| == 0 then None
    else if walk[0].root == source then Some(walk[0])
    else FirstAt(walk[1..], source)
  }

  /** The files the walk loop processes: a directory other than `source` is skipped
      when not recursing (and the skip also bypasses the `break`); the first directory
      processed ends the loop when not recursing. */
  function SelectFiles(walk: seq<WalkEntry>, source: string, recurse: bool): (r: seq<SourceFile>)
    ensures !recurse ==> forall k :: 0 <= k < |r| ==> r[k].root == source
    decreases |walk|
  {
    if |walk| == 0 then []
    else if !recurse && walk[0].root != source then SelectFiles(walk[1..], source, recurse)
    else FilesOf(walk[0]) + (if recurse then SelectFiles(walk[1..], source, recurse) else [])
  }

  /** Recursing, every file of the walk is processed, in walk order. */
  lemma {:induction false} SelectRecursive(walk: seq<WalkEntry>, source: string)
    ensures SelectFiles(walk, source, true) == AllFiles(walk)
    decreases |walk|
  {
    if |walk| > 0 {
      SelectRecursive(walk[1..], source);
    }
  }

  /** With `-n`, exactly the files directly in `source` are processed. */
  lemma {:induction false} SelectNonRecursive(walk: seq<WalkEntry>, source: string)
    ensures SelectFiles(walk, source, false) == match FirstAt(walk, source)
      case Some(e) => FilesOf(e)
      case None => []
    decreases |walk|
  {
    if |walk| > 0 && walk[0].root != source {
      SelectNonRecursive(walk[1..], source);
    }
  }

  // ---------------------------------------------------------------------------
  // A whole run

  datatype Move = Move(from: SourceFile, to: Target)

  /** The moves performed, and the tag that aborted the run if one did. */
  datatype Run = Run(moves: seq<Move>, abortedOn: Option<string>)

  /** The files that read as DICOM, in order. */
  function Readable(files: seq<SourceFile>, headers: map<SourceFile, Header>): (r: seq<SourceFile>)
    ensures forall k :: 0 <= k < |r| ==> r[k] in headers && r[k] in files
    ensures forall f :: f in files && f in headers ==> f in r
    decreases |files|
  {
    if |files| == 0 then []
    else (if files[0] in headers then [files[0]] else []) + Readable(files[1..], headers)
  }

  function Sources(moves: seq<Move>): (r: seq<SourceFile>)
    ensures |r| == |moves| && forall k :: 0 <= k < |r| ==> r[k] == moves[k].from
  {
    seq(|moves|, k requires 0 <= k < |moves| => moves[k].from)
  }

  /** Processes `files` in order. A file with no header (not DICOM) is skipped; a header
      that lacks a needed field aborts the whole run, keeping the moves already made. */
  function SortFiles(files: seq<SourceFile>, headers: map<SourceFile, Header>, dest: string, opts: Options): (r: Run)
    ensures |r.moves| <= |files|
    ensures forall k :: 0 <= k < |r.moves| ==> r.moves[k].from in headers && TargetOf(dest, headers[r.moves[k].from], opts) == Ok(r.moves[k].to)
    ensures r.abortedOn.Some? ==> r.abortedOn.value in {SeriesNumberTag, InstanceNumberTag, PatientNameTag, SeriesDescriptionTag}
    decreases |files|
  {
    if |files| == 0 then Run([], None)
    else
      var f := files[0];
      var rest := SortFiles(files[1..], headers, dest, opts);
      if f !in headers then rest
      else
        var target := TargetOf(dest, headers[f], opts);
        if target.Err? then Run([], Some(target.error))
        else Run([Move(f, target.value)] + rest.moves, rest.abortedOn)
  }

  /** A run completes exactly when every DICOM file has the fields it needs. */
  lemma {:induction false} SortFilesCompletes(files: seq<SourceFile>, headers: map<SourceFile, Header>, dest: string, opts: Options)
    ensures SortFiles(files, headers, dest, opts).abortedOn.None?
      <==> forall k :: 0 <= k < |files| && files[k] in headers ==> HasNeededFields(headers[files[k]], opts)
    decreases |files|
  {
    if |files| > 0 {
      SortFilesCompletes(files[1..], headers, dest, opts);
      assert forall k :: 1 <= k < |files| ==> files[k] == files[1..][k - 1];
    }
  }

  /** A completed run moves every DICOM file, in order, and nothing else. */
  lemma {:induction false} SortFilesMovesAll(files: seq<SourceFile>, headers: map<SourceFile, Header>, dest: string, opts: Options)
    requires SortFiles(files, headers, dest, opts).abortedOn.None?
    ensures Sources(SortFiles(files, headers, dest, opts).moves) == Readable(files, headers)
    decreases |files|
  {
    if |files| > 0 {
      var f := files[0];
      var rest := SortFiles(files[1..], headers, dest, opts);
      SortFilesMovesAll(files[1..], headers, dest, opts);
      if f in headers {
        var m := Move(f, TargetOf(dest, headers[f], opts).value);
        assert SortFiles(files, headers, dest, opts).moves == [m] + rest.moves;
        SourcesCons(m, rest.moves);
      }
    }
  }

  /** At most one move per DICOM file, in order: the moves are those of a prefix of the
      readable files. */
  lemma {:induction false} SortFilesPrefix(files: seq<SourceFile>, headers: map<SourceFile, Header>, dest: string, opts: Options)
    ensures Sources(SortFiles(files, headers, dest, opts).moves) <= Readable(files, headers)
    decreases |files|
  {
    if |files| > 0 {
      var f := files[0];
      var rest := SortFiles(files[1..], headers, dest, opts);
      SortFilesPrefix(files[1..], headers, dest, opts);
      if f !in headers {
        assert Readable(files, headers) == Readable(files[1..], headers);
      } else if TargetOf(dest, headers[f], opts).Ok? {
        var m := Move(f, TargetOf(dest, headers[f], opts).value);
        assert SortFiles(files, headers, dest, opts).moves == [m] + rest.moves;
        SourcesCons(m, rest.moves);
        assert Readable(files, headers) == [f] + Readable(files[1..], headers);
      }
    }
  }

  /** `files[k]` is the first DICOM file lacking a needed field, which is `tag`, and
      `moved` are the DICOM files before it. */
  predicate AbortsAt(files: seq<SourceFile>, headers: map<SourceFile, Header>, dest: string, opts: Options,
                     k: nat, tag: string, moved: seq<SourceFile>)
  {
    && k < |files| && files[k] in headers
    && TargetOf(dest, headers[files[k]], opts) == Err(tag)
    && (forall j :: 0 <= j < k && files[j] in headers ==> HasNeededFields(headers[files[j]], opts))
    && moved == Readable(files[..k], headers)
  }

  /** An aborted run stops at the first DICOM file lacking a needed field, reports that
      field's tag, and has moved exactly the DICOM files before it. */
  lemma {:induction false} SortFilesAborts(files: seq<SourceFile>, headers: map<SourceFile, Header>, dest: string, opts: Options)
    requires SortFiles(files, headers, dest, opts).abortedOn.Some?
    ensures exists k: nat :: AbortsAt(files, headers, dest, opts, k, SortFiles(files, headers, dest, opts).abortedOn.value,
                                 Sources(SortFiles(files, headers, dest, opts).moves))
    decreases |files|
  {
    var r := SortFiles(files, headers, dest, opts);
    var f := files[0];
    var rest := SortFiles(files[1..], headers, dest, opts);
    if f in headers && TargetOf(dest, headers[f], opts).Err? {
      assert files[..0] == [];
      assert AbortsAt(files, headers, dest, opts, 0, r.abortedOn.value, Sources(r.moves));
    } else {
      SortFilesAborts(files[1..], headers, dest, opts);
      var k: nat :| AbortsAt(files[1..], headers, dest, opts, k, rest.abortedOn.value, Sources(rest.moves));
      AbortsAtCons(files, headers, dest, opts, k, rest.abortedOn.value, Sources(rest.moves));
      if f in headers {
        var m := Move(f, TargetOf(dest, headers[f], opts).value);
        assert r.moves == [m] + rest.moves;
        SourcesCons(m, rest.moves);
      }
      assert AbortsAt(files, headers, dest, opts, k + 1, r.abortedOn.value, Sources(r.moves));
    }
  }

  /** A file that is not DICOM, or has every needed field, in front of the abort point
      moves the abort point by one. */
  lemma AbortsAtCons(files: seq<SourceFile>, headers: map<SourceFile, Header>, dest: string, opts: Options,
                     k: nat, tag: string, moved: seq<SourceFile>)
    requires |files| > 0 && AbortsAt(files[1..], headers, dest, opts, k, tag, moved)
    requires files[0] in headers ==> HasNeededFields(headers[files[0]], opts)
    ensures AbortsAt(files, headers, dest, opts, k + 1, tag, (if files[0] in headers then [files[0]] else []) + moved)
  {
    assert files[..k + 1][1..] == files[1..][..k];
    assert files[..k + 1][0] == files[0];
    assert files[k + 1] == files[1..][k];
    forall j | 0 <= j < k + 1 && files[j] in headers
      ensures HasNeededFields(headers[files[j]], opts)
    {
      if j > 0 {
        assert files[j] == files[1..][j - 1];
      }
    }
  }

  lemma SourcesCons(m: Move, ms: seq<Move>)
    ensures Sources([m] + ms) == [m.from] + Sources(ms)
  {
  }

  /** `process_files`: select the files of the walk, then sort them. */
  function ProcessFiles(walk: seq<WalkEntry>, source: string, dest: string, opts: Options, headers: map<SourceFile, Header>): (r: Run)
    ensures forall k :: 0 <= k < |r.moves| ==> |r.moves[k].to.dirs| >= 1 && r.moves[k].to.dirs[0] == dest
    ensures !opts.recurse ==> forall k :: 0 <= k < |r.moves| ==> r.moves[k].from.root == source
  {
    var files := SelectFiles(walk, source, opts.recurse);
    var r := SortFiles(files, headers, dest, opts);
    SortFilesFromFiles(files, headers, dest, opts);
    assert forall k :: 0 <= k < |r.moves| ==> r.moves[k] in r.moves;
    r
  }

  /** Every move comes from one of the files handed in. */
  lemma {:induction false} SortFilesFromFiles(files: seq<SourceFile>, headers: map<SourceFile, Header>, dest: string, opts: Options)
    ensures forall m :: m in SortFiles(files, headers, dest, opts).moves ==> m.from in files
    decreases |files|
  {
    if |files| > 0 {
      SortFilesFromFiles(files[1..], headers, dest, opts);
      var r := SortFiles(files, headers, dest, opts);
      var rest := SortFiles(files[1..], headers, dest, opts);
      assert forall x :: x in files[1..] ==> x in files;
    }
  }
}
