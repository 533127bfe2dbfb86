/** The rewrite rules of anonymize_dicoms: a configuration of per-tag actions applied
    to a DICOM dataset, the configuration read from CSV rows, and the extension filter. */
module Anonymize {
  import opened Wrappers
  import opened OrderedDict

  /** A dataset maps each element keyword it holds to its value; a present element can
      hold no value (None). */
  type Dataset = map<string, Option<string>>

  /** Tag keyword to action, in the order the configuration lists them. */
  type Config = Entries<string>

  const Clear := "CLEAR"
  const Delete := "DELETE"

  /** Whether `tag` is present in `ds`, and with which value. */
  function Lookup(ds: Dataset, tag: string): Option<Option<string>> {
    if tag in ds then Some(ds[tag]) else None
  }

  /** Datasets agreeing on every lookup are equal. */
  lemma LookupExtensional(a: Dataset, b: Dataset)
    requires forall t :: Lookup(a, t) == Lookup(b, t)
    ensures a == b
  {
    assert a.Keys == b.Keys by {
      forall t ensures t in a <==> t in b {
        assert Lookup(a, t).Some? <==> Lookup(b, t).Some?;
      }
    }
    forall t | t in a ensures a[t] == b[t] {
      assert Lookup(a, t) == Lookup(b, t);
    }
  }

  /** One configuration entry: a tag the dataset lacks is skipped with a warning;
      otherwise CLEAR empties the element, DELETE removes it, and any other action is
      the new value. */
  function ApplyEntry(ds: Dataset, tag: string, action: string): (r: Dataset)
    ensures r.Keys <= ds.Keys
    ensures forall t :: t != tag ==> Lookup(r, t) == Lookup(ds, t)
  {
    if tag !in ds then ds
    else if action == Clear then ds[tag := None]
    else if action == Delete then ds - {tag}
    else ds[tag := Some(action)]
  }

  /** `anonymize_dicom`'s loop: the configuration entries applied in order. */
  function AnonymizeDataset(ds: Dataset, config: Config): (r: Dataset)
    ensures r.Keys <= ds.Keys
    ensures forall t :: t !in Keys(config) ==> Lookup(r, t) == Lookup(ds, t)
    decreases |config|
  {
    if |config| == 0 then ds
    else
      assert Keys(config) == [config[0].0] + Keys(config[1..]);
      AnonymizeDataset(ApplyEntry(ds, config[0].0, config[0].1), config[1..])
  }

  /** What one tag ends up as, given what it was and the action configured for it (if any):
      the reference meaning of the configuration, one tag at a time. */
  function Outcome(before: Option<Option<string>>, action: Option<string>): Option<Option<string>> {
    match action
    case None => before
    case Some(a) =>
      if before.None? then None
      else if a == Clear then Some(None)
      else if a == Delete then None
      else Some(Some(a))
  }

  /** The loop does, for every tag, what its configured action says and nothing else. */
  lemma {:induction false} AnonymizePointwise(ds: Dataset, config: Config, t: string)
    requires UniqueKeys(config)
    ensures Lookup(AnonymizeDataset(ds, config), t) == Outcome(Lookup(ds, t), Get(config, t))
    decreases |config|
  {
    if |config| > 0 {
      var (tag, action) := config[0];
      var ds' := ApplyEntry(ds, tag, action);
      assert UniqueKeys(config[1..]);
      AnonymizePointwise(ds', config[1..], t);
      assert Keys(config) == [tag] + Keys(config[1..]);
      if t == tag {
        assert tag !in Keys(config[1..]);
      }
    }
  }

  /** A configured tag the dataset lacks stays absent: the configuration never adds elements. */
  lemma AbsentTagStaysAbsent(ds: Dataset, config: Config, t: string)
    requires UniqueKeys(config) && t !in ds
    ensures t !in AnonymizeDataset(ds, config)
  {
    AnonymizePointwise(ds, config, t);
  }

  /** The three actions on a tag the dataset holds: CLEAR keeps it with no value, DELETE
      removes it, anything else overwrites it. */
  lemma ActionsOnPresentTag(ds: Dataset, config: Config, t: string)
    requires UniqueKeys(config) && t in ds && t in Keys(config)
    ensures var r := AnonymizeDataset(ds, config);
      var a := Get(config, t).value;
      && (a == Clear ==> t in r && r[t] == None)
      && (a == Delete ==> t !in r)
      && (a != Clear && a != Delete ==> t in r && r[t] == Some(a))
  {
    AnonymizePointwise(ds, config, t);
  }

  /** Anonymising an anonymised dataset again changes nothing. */
  lemma AnonymizeIdempotent(ds: Dataset, config: Config)
    requires UniqueKeys(config)
    ensures AnonymizeDataset(AnonymizeDataset(ds, config), config) == AnonymizeDataset(ds, config)
  {
    var once := AnonymizeDataset(ds, config);
    var twice := AnonymizeDataset(once, config);
    forall t ensures Lookup(twice, t) == Lookup(once, t) {
      AnonymizePointwise(ds, config, t);
      AnonymizePointwise(once, config, t);
    }
    LookupExtensional(twice, once);
  }

  // ---------------------------------------------------------------------------
  // Configuration from CSV

  /** One row of the configuration CSV: its Tag and Value columns. */
  datatype CsvRow = CsvRow(tag: string, value: string)

  function RowPairs(rows: seq<CsvRow>): (ps: seq<(string, string)>)
    ensures |ps| == |rows| && forall i :: 0 <= i < |rows| ==> ps[i] == (rows[i].tag, rows[i].value)
  {
    seq(|rows|, i requires 0 <= i < |rows| => (rows[i].tag, rows[i].value))
  }

  /** The configuration: each row's tag mapped to its value, in the order tags first
      appear, a later row for the same tag replacing the value. */
  function LoadConfig(rows: seq<CsvRow>): (c: Config)
    ensures UniqueKeys(c)
  {
    FromPairs(RowPairs(rows))
  }

  /** A tag listed on several rows takes the value of its last row; every listed tag is
      configured and no other. */
  lemma LoadConfigLastRowWins(rows: seq<CsvRow>, tag: string)
    ensures Get(LoadConfig(rows), tag) == LastValue(RowPairs(rows), tag)
    ensures tag in Keys(LoadConfig(rows)) <==> exists i :: 0 <= i < |rows| && rows[i].tag == tag
  {
    FromPairsLastWins(RowPairs(rows), tag);
    FromPairsKeys(RowPairs(rows), tag);
  }

  // ---------------------------------------------------------------------------
  // Extension filter

  const SkipExtensions: seq<string> := ["json", "nii", "nii.gz", "txt", "doc", "gif", "csv"]

  /** `s.rfind(c)`: the last index of `c`, or -1. */
  function RFind(s: string, c: char): (r: int)
    ensures -1 <= r < |s|
    ensures r >= 0 ==> s[r] == c
    ensures forall k :: r < k < |s| ==> s[k] != c
    decreases |s|
  {
    if |s| == 0 then -1
    else if s[|s| - 1] == c then |s| - 1
    else RFind(s[..|s| - 1], c)
  }

  /** `p[i]` is the last dot of `p`, and no separator follows it. */
  predicate LastDot(p: string, i: int) {
    0 <= i < |p| && p[i] == '.' && forall k :: i < k < |p| ==> p[k] != '.' && p[k] != '/'
  }

  /** Within the path component that holds position `i`, something other than a dot
      comes before `i`. */
  predicate HasStem(p: string, i: int)
    requires 0 <= i <= |p|
  {
    exists k :: 0 <= k < i && p[k] != '.' && forall j :: k <= j < i ==> p[j] != '/'
  }

  /** `os.path.splitext`: the extension runs from the last dot of the last path component,
      unless only dots precede that dot within the component. */
  function SplitExt(p: string): (r: (string, string))
    ensures r.0 + r.1 == p
    ensures r.1 == "" || (r.1[0] == '.' && '.' !in r.1[1..] && '/' !in r.1)
  {
    var sep := RFind(p, '/');
    var dot := RFind(p, '.');
    if dot > sep && exists k :: sep + 1 <= k < dot && p[k] != '.' then
      assert p[..dot] + p[dot..] == p;
      (p[..dot], p[dot..])
    else (p, "")
  }

  /** The extension is non-empty exactly when the last dot of the path has no separator
      after it and something other than a dot before it in its component; it then runs
      from that dot to the end. */
  lemma SplitExtLastDot(p: string)
    ensures forall i :: LastDot(p, i) && HasStem(p, i) ==> SplitExt(p) == (p[..i], p[i..])
    ensures SplitExt(p).1 != "" ==> LastDot(p, |SplitExt(p).0|) && HasStem(p, |SplitExt(p).0|)
  {
    var sep := RFind(p, '/');
    var dot := RFind(p, '.');
    LastDotIsRFind(p);
    if dot > sep && exists k :: sep + 1 <= k < dot && p[k] != '.' {
      assert LastDot(p, dot);
      assert HasStem(p, dot);
    }
  }

  /** The last dot with no separator after it is the one `rfind` finds, and a stem before
      it lies past the last separator. */
  lemma LastDotIsRFind(p: string)
    ensures forall i :: LastDot(p, i) ==> i == RFind(p, '.') && RFind(p, '/') < i
    ensures forall i :: LastDot(p, i) && HasStem(p, i) ==>
      exists k :: RFind(p, '/') + 1 <= k < i && p[k] != '.'
  {
    var sep := RFind(p, '/');
    forall i | LastDot(p, i) && HasStem(p, i)
      ensures exists k :: sep + 1 <= k < i && p[k] != '.'
    {
      var k :| 0 <= k < i && p[k] != '.' && forall j :: k <= j < i ==> p[j] != '/';
      assert sep < k;
    }
  }

  /** The test on line 39 as written: the extension, dot included, against the list. */
  predicate SkippedAsWritten(file: string) {
    SplitExt(file).1 in SkipExtensions
  }

  /** As written, the filter skips nothing: every extension starts with a dot and no
      listed name does. */
  lemma NothingSkipped(file: string)
    ensures !SkippedAsWritten(file)
  {
    var e := SplitExt(file).1;
    forall i | 0 <= i < |SkipExtensions| ensures e != SkipExtensions[i] {
      assert |SkipExtensions[i]| > 0 && SkipExtensions[i][0] != '.';
    }
  }

  /** The files of one directory that `anonymize_directory` hands to `anonymize_dicom`. */
  function FilesToAnonymize(files: seq<string>): (r: seq<string>)
    ensures |r| <= |files|
    ensures forall k :: 0 <= k < |r| ==> r[k] in files && !SkippedAsWritten(r[k])
    decreases |files|
  {
    if |files| == 0 then []
    else (if SkippedAsWritten(files[0]) then [] else [files[0]]) + FilesToAnonymize(files[1..])
  }

  /** Every file, `.json` and `.nii.gz` files included, is processed. */
  lemma {:induction false} AllFilesProcessed(files: seq<string>)
    ensures FilesToAnonymize(files) == files
    decreases |files|
  {
    if |files| > 0 {
      NothingSkipped(files[0]);
      AllFilesProcessed(files[1..]);
    }
  }

  lemma JsonFileProcessed()
    ensures SplitExt("a.json") == ("a", ".json")
    ensures !SkippedAsWritten("a.json")
  {
    var p := "a.json";
    assert p[0] == 'a' && p[1] == '.' && p[2] == 'j' && p[3] == 's' && p[4] == 'o' && p[5] == 'n';
    assert RFind(p, '.') == 1;
    assert RFind(p, '/') == -1;
    assert p[..1] == "a" && p[1..] == ".json";
    NothingSkipped("a.json");
  }

  predicate EndsWith(s: string, suffix: string) {
    |suffix| <= |s| && s[|s| - |suffix|..] == suffix
  }

  /** The evident intent: skip a file whose name ends in a dot and one of the listed
      extensions (which also covers the two-part `nii.gz`). */
  predicate SkippedIntended(file: string) {
    exists i :: 0 <= i < |SkipExtensions| && EndsWith(file, "." + SkipExtensions[i])
  }

  /** The intended filter skips every listed extension, whatever precedes it, and in
      particular every file whose `splitext` extension is listed. */
  lemma IntendedSkipsListed(stem: string, i: nat)
    requires i < |SkipExtensions|
    ensures SkippedIntended(stem + "." + SkipExtensions[i])
  {
    var f := stem + "." + SkipExtensions[i];
    assert f[|f| - |"." + SkipExtensions[i]|..] == "." + SkipExtensions[i];
  }

  lemma IntendedSkipsBySplitExt(file: string)
    requires SplitExt(file).1 != "" && SplitExt(file).1[1..] in SkipExtensions
    ensures SkippedIntended(file)
  {
    var (root, ext) := SplitExt(file);
    var i :| 0 <= i < |SkipExtensions| && SkipExtensions[i] == ext[1..];
    assert ext == "." + SkipExtensions[i];
    assert file[|file| - |ext|..] == ext;
  }

  lemma EndsWithLast(s: string, suffix: string)
    requires EndsWith(s, suffix) && |suffix| > 0
    ensures s[|s| - 1] == suffix[|suffix| - 1]
  {
    assert s[|s| - |suffix|..][|suffix| - 1] == s[|s| - 1];
  }

  /** The intended filter skips JSON and NIfTI files. */
  lemma IntendedSkipsExamples()
    ensures SkippedIntended("a.json")
    ensures SkippedIntended("scan.nii.gz")
  {
    assert SkipExtensions[0] == "json" && SkipExtensions[2] == "nii.gz";
    IntendedSkipsListed("a", 0);
    assert "a" + "." + "json" == "a.json";
    IntendedSkipsListed("scan", 2);
    assert "scan" + "." + "nii.gz" == "scan.nii.gz";
  }

  /** The filter as evidently intended: the files of one directory whose names do not
      end in a listed extension, in order. */
  function IntendedFilesToAnonymize(files: seq<string>): (r: seq<string>)
    ensures |r| <= |files|
    ensures forall k :: 0 <= k < |r| ==> r[k] in files && !SkippedIntended(r[k])
    ensures forall f :: f in files && !SkippedIntended(f) ==> f in r
    decreases |files|
  {
    if |files| == 0 then []
    else
      var rest := IntendedFilesToAnonymize(files[1..]);
      assert forall f :: f in files ==> f == files[0] || f in files[1..];
      (if SkippedIntended(files[0]) then [] else [files[0]]) + rest
  }

  /** No listed extension ends in `m`, so the intended filter keeps a `.dcm` file. */
  lemma IntendedKeepsDicom()
    ensures !SkippedIntended("IM0001.dcm")
  {
    var f := "IM0001.dcm";
    assert f[|f| - 1] == 'm';
    forall i | 0 <= i < |SkipExtensions| ensures !EndsWith(f, "." + SkipExtensions[i]) {
      var e := SkipExtensions[i];
      assert e[|e| - 1] != 'm';
      var x := "." + e;
      assert x[|x| - 1] == e[|e| - 1];
      if EndsWith(f, x) {
        EndsWithLast(f, x);
      }
    }
  }

  /** On a directory holding a sidecar and an image, the code as written processes both,
      while the intended filter processes only the image. */
  lemma SidecarExample()
    ensures FilesToAnonymize(["a.json", "IM0001.dcm"]) == ["a.json", "IM0001.dcm"]
    ensures IntendedFilesToAnonymize(["a.json", "IM0001.dcm"]) == ["IM0001.dcm"]
  {
    AllFilesProcessed(["a.json", "IM0001.dcm"]);
    IntendedSkipsExamples();
    IntendedKeepsDicom();
    var fs := ["a.json", "IM0001.dcm"];
    assert fs[1..] == ["IM0001.dcm"] && fs[1..][1..] == [];
  }
}
