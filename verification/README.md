# oscar-scripts: naming, anonymising and argument-encoding rules in Dafny

This project models the decision logic of three tools from the Brown BNC `oscar-scripts`
repository. Each tool is written as pure functions over plain data, and the properties its
users rely on are proved about those functions.

- **dicomsort** (`dicomsort.py`) copies or renames DICOM files to
  `dest[/subject][/NN_description]/dcmS<series>A<acquisition>I<instance>`. Its file names
  are meant to sort alphabetically by series and then slice. Module `DicomSort` models the
  header fields it reads (`Header`, with absent fields as `None`) and the `-i`, `-q` and `-n`
  switches (`Options`). It computes the target directory chain and file name (`TargetOf`), the
  path string (`PathOf`, a POSIX `os.path.join`), the files a directory walk selects with and
  without `-n` (`SelectFiles`), and a whole run over the selected files (`SortFiles`,
  `ProcessFiles`).
- **anonymize_dicoms** (`anonymize_dicoms.py`) applies a per-tag configuration to each DICOM
  dataset. `CLEAR` empties an element, `DELETE` removes it, and any other value overwrites it.
  Tags the dataset lacks are skipped. Module `Anonymize` models a dataset as a map from element
  keyword to optional value. The configuration is an insertion-ordered dictionary built from
  the CSV rows (`LoadConfig`). The module also models the extension filter of
  `anonymize_directory`, both as written and as evidently intended.
- **xnat2bids argument encoding** (`extract_params`, `parse_x2b_params`). Only the test suite
  `tests/test_xnat2bids.py` fixes this behaviour; the implementation is not part of this model.
  Module `Xnat2Bids` turns a list value or a range string such as `"1-4, 7, 10"` into
  `--name v` fragments. It builds the argument list from an ordered parameter dictionary:
  session, then the BIDS root (which also becomes a container binding), then each other
  parameter in dictionary order.

The supporting modules are:

- `Wrappers`: `Option`, and `Result` with an error string.
- `Strings`: Python's string `<`, `join`, `split`, `strip(' ')`, and `index`.
- `Decimal`: `str(n)` and `f"{n:0w}"` on naturals, and `int(s)` restricted to plain digit strings.
- `OrderedDict`: Python dict semantics with string keys, insertion order and last write wins.

## Model

| member | source | states |
|---|---|---|
| DicomSort.FileName | dicomsort.py:122 | The target file name starts with `dcmS` and has at least eighteen characters |
| DicomSort.FileNameLength | dicomsort.py:122 | When all three numbers are below 10000, the name is exactly eighteen characters long |
| DicomSort.FileNameRoundTrip | dicomsort.py:122 | The series, acquisition and instance numbers can be read back from the file name, because `A` and `I` delimit the zero-padded digit runs |
| DicomSort.FileNameInjective | dicomsort.py:122 | Distinct (series, acquisition, instance) triples give distinct file names |
| DicomSort.FileNameOrder | dicomsort.py:33-34 | When all numbers are below 10000, one file name sorts alphabetically before another exactly when its triple is smaller in (series, acquisition, instance) order |
| DicomSort.FileNameOrderFailsAtTenThousand | dicomsort.py:122 | The ordering promise stops at four digits: instance 10000 sorts before instance 9999 of the same series |
| DicomSort.SubjectDir | dicomsort.py:111-112 | The subject directory holds only letters and digits, is no longer than the patient name, and keeps every alphanumeric character of the name |
| DicomSort.SubjectDirConcat | dicomsort.py:112 | The character filter distributes over concatenation, so the kept characters stay in their original order |
| DicomSort.SubjectDirKeepsAlnum | dicomsort.py:112 | A patient name made only of letters and digits is kept whole |
| DicomSort.SubjectDirDropsOthers | dicomsort.py:112 | A non-alphanumeric character is dropped and nothing around it changes |
| DicomSort.SeriesDir | dicomsort.py:117-119 | The series directory ends with the series description verbatim, after at least three characters of padded number and `_` |
| DicomSort.SeriesDirRoundTrip | dicomsort.py:117-119 | The series number and the description, whatever characters it holds, can be read back from the series directory name |
| DicomSort.TargetOf | dicomsort.py:101-122 | A target exists exactly when the header has every field the switches need. Otherwise the failure names the first field read without a guard that is missing: the series number, then the instance number, then the patient name under `-i`, then the series description under `-q`. The chain starts at the destination |
| DicomSort.TargetFileName | dicomsort.py:101-107 | The target name carries the header's series and instance numbers, and its acquisition number or 0 when that is absent |
| DicomSort.TargetNesting | dicomsort.py:109-122 | The directory chain is the destination, then the subject directory exactly when `-i` is given, then the series directory exactly when `-q` is given |
| DicomSort.MissingAcquisitionIsZero | dicomsort.py:102-106 | A file without an acquisition number goes where it would go with acquisition number 0 |
| DicomSort.UnusedFieldsIgnored | dicomsort.py:110-119 | Without `-i` and `-q`, the patient name and series description have no effect |
| DicomSort.PathJoin | dicomsort.py:113-122 | An absolute second part replaces the first; otherwise the result starts with the first part and ends with the second, with a separator before the second part when the first is not empty, added only when the first does not already end in one |
| DicomSort.PathOf | dicomsort.py:109-122 | A target's path ends with its file name |
| DicomSort.TargetPath | dicomsort.py:109-122 | A target's path starts with the destination and ends with the file name, which follows a separator when the destination is not empty |
| DicomSort.PathJoinEmpty | dicomsort.py:113 | Joining an empty subject directory only adds a separator that the next join would add anyway |
| DicomSort.EmptySubjectDirVanishes | dicomsort.py:110-122 | With `-i`, a patient name with no letter or digit gives the same path as a run without `-i` |
| DicomSort.FirstAt | dicomsort.py:85-87 | The result is an entry of the walk rooted at the source directory with no earlier entry rooted there; there is none exactly when no entry of the walk is rooted there |
| DicomSort.SelectFiles | dicomsort.py:85-89 | With `-n`, every selected file lies directly in the source directory |
| DicomSort.SelectRecursive | dicomsort.py:85-89 | Without `-n`, every file of the walk is selected, in walk order |
| DicomSort.SelectNonRecursive | dicomsort.py:85-87 | With `-n`, exactly the files of the first walk entry rooted at the source directory are selected; since the skip bypasses the `break`, other directories before it do not end the loop |
| DicomSort.Readable | dicomsort.py:94-99 | The files that read as DICOM are exactly the input files that have a header |
| DicomSort.SortFiles | dicomsort.py:89-138 | Every move starts from a DICOM file and goes to the target of that file's header; a run aborts only on one of the four header tags read without a guard |
| DicomSort.SortFilesPrefix | dicomsort.py:89-130 | At most one move per DICOM file: the moved files are a prefix of the DICOM files, in input order |
| DicomSort.SortFilesAborts | dicomsort.py:89-119 | An aborted run reports the tag of the first DICOM file that lacks a needed field, and has moved exactly the DICOM files before that one |
| DicomSort.SortFilesCompletes | dicomsort.py:101-119 | A run completes exactly when every DICOM file has the fields the switches need |
| DicomSort.SortFilesMovesAll | dicomsort.py:89-130 | A completed run moves every DICOM file and nothing else, in input order |
| DicomSort.SortFilesFromFiles | dicomsort.py:89-90 | Every move starts from one of the selected files |
| DicomSort.ProcessFiles | dicomsort.py:73-141 | Every move's directory chain starts at the destination, and with `-n` every moved file comes from the source directory itself |
| Anonymize.ApplyEntry | anonymize_dicoms.py:13-21 | One entry never adds an element and leaves every other tag as it was |
| Anonymize.AnonymizeDataset | anonymize_dicoms.py:12-21 | The loop never adds elements, and a tag not named in the configuration is unchanged |
| Anonymize.AnonymizePointwise | anonymize_dicoms.py:12-21 | For every tag, the loop's result equals an independent per-tag reference (`Outcome`) of the configured action |
| Anonymize.AbsentTagStaysAbsent | anonymize_dicoms.py:13-21 | A configured tag the dataset lacks stays absent |
| Anonymize.ActionsOnPresentTag | anonymize_dicoms.py:14-19 | On a present tag, `CLEAR` keeps the tag with no value, `DELETE` removes it, and any other action overwrites it with that action |
| Anonymize.AnonymizeIdempotent | anonymize_dicoms.py:12-21 | Applying the configuration twice gives the same dataset as applying it once |
| Anonymize.LoadConfig | anonymize_dicoms.py:5-8 | The configuration built from the rows has each tag once |
| Anonymize.LoadConfigLastRowWins | anonymize_dicoms.py:7 | A tag on several rows takes the value of its last row, and the configured tags are exactly the listed ones |
| Anonymize.SplitExt | anonymize_dicoms.py:39 | `splitext` splits the name into two parts that concatenate back to it; the extension is empty or a dot with no further dot or slash |
| Anonymize.SplitExtLastDot | anonymize_dicoms.py:39 | The extension is non-empty exactly when the last dot of the name has no separator after it and something other than a dot before it in its component; it then runs from that dot to the end |
| Anonymize.NothingSkipped | anonymize_dicoms.py:37-39 | As written, the filter skips no file, because every extension starts with a dot and no listed name does |
| Anonymize.FilesToAnonymize | anonymize_dicoms.py:38-43 | Only files of the directory that pass the filter as written are handed on |
| Anonymize.AllFilesProcessed | anonymize_dicoms.py:37-43 | As written, every file of a directory is handed to `anonymize_dicom`, `.json` included |
| Anonymize.JsonFileProcessed | anonymize_dicoms.py:39 | `a.json` splits into `a` and `.json` and is not skipped |
| Anonymize.IntendedSkipsListed | anonymize_dicoms.py:37 | The intended filter skips a name ending in a dot and any listed extension |
| Anonymize.IntendedSkipsBySplitExt | anonymize_dicoms.py:37-39 | The intended filter skips every file whose `splitext` extension, without its dot, is listed |
| Anonymize.IntendedSkipsExamples | anonymize_dicoms.py:37 | The intended filter skips `a.json` and `scan.nii.gz` |
| Anonymize.IntendedKeepsDicom | anonymize_dicoms.py:37-39 | The intended filter keeps `IM0001.dcm` |
| Anonymize.IntendedFilesToAnonymize | anonymize_dicoms.py:37-43 | The intended filter hands on exactly the files not ending in a listed extension |
| Anonymize.SidecarExample | anonymize_dicoms.py:37-43 | For a directory holding `a.json` and `IM0001.dcm`, the code as written processes both files and the intended filter processes only the image |
| OrderedDict.Put | anonymize_dicoms.py:7 | Storing a key keeps keys unique, stores the value, leaves the other keys alone, and appends a new key at the end or keeps an existing key in place |
| OrderedDict.FromPairsLastWins | anonymize_dicoms.py:7 | Building a dict from pairs gives each key the value of its last pair |
| OrderedDict.FromPairsKeys | anonymize_dicoms.py:7 | The dict built from pairs holds exactly the keys that occur in the pairs |
| Decimal.ZeroPad | dicomsort.py:118 | The padded numeral is all digits, denotes the number and is at least the width long; when longer, it is the plain numeral |
| Decimal.ZeroPadWidth | dicomsort.py:122 | Below 10^w, the padded numeral is exactly w characters long |
| Decimal.LexLessIsNumeric | dicomsort.py:33-34 | For numerals of equal length, string order is numeric order |
| Decimal.ParseDigits | tests/test_xnat2bids.py:98-100 | A numeral parses back to its number |
| Strings.LexLessConcat | dicomsort.py:33-34 | Comparing two strings with equal-length first parts is decided by the first parts, then by the rest |
| Strings.Split | tests/test_xnat2bids.py:98 | Splitting at a character gives non-empty list of parts free of that character that join back to the input |
| Strings.SplitJoin | tests/test_xnat2bids.py:98 | Splitting a join of separator-free parts gives the parts back |
| Strings.TrimSpacesThen | tests/test_xnat2bids.py:98 | Stripping removes the spaces that follow a comma and leaves a group's text intact |
| Strings.TrimPadded | tests/test_xnat2bids.py:98 | Stripping removes any run of spaces on either side of a group's text and keeps the text whole |
| Xnat2Bids.ParseRanges | tests/test_xnat2bids.py:98 | A parsed range string has one group per comma-separated piece, and at least one |
| Xnat2Bids.ParseRangesPieces | tests/test_xnat2bids.py:95-109 | A range string parses exactly when every comma-separated piece does, and each group is the parse of its piece |
| Xnat2Bids.ExpandConcat | tests/test_xnat2bids.py:95-101 | Expanding a range string keeps the comma-separated groups in order |
| Xnat2Bids.Interval | tests/test_xnat2bids.py:95-109 | `a-b` stands for the numbers a to b inclusive, ascending |
| Xnat2Bids.ParseGroupText | tests/test_xnat2bids.py:98 | A group's text reads back to the group, with or without the spaces that follow its comma |
| Xnat2Bids.RangesRoundTrip | tests/test_xnat2bids.py:95-109 | Parsing a range string written as `", ".join` of groups gives back the groups |
| Xnat2Bids.RangeTextValues | tests/test_xnat2bids.py:95-109 | The values of such a range string are the numerals of the groups' expansions, in order |
| Xnat2Bids.MultiValues | tests/test_xnat2bids.py:87-109 | A list value yields each element's `str`, in order; a range string yields values exactly when it parses, and each value reads back as the matching number of the expansion |
| Xnat2Bids.ExtractParams | tests/test_xnat2bids.py:87-117 | A value encodes exactly when its values can be listed, so a list always encodes; the result is empty exactly when there are no values |
| Xnat2Bids.ExtractParamsTokens | tests/test_xnat2bids.py:87-109 | Splitting the result at spaces gives `--name`, value, `--name`, value, ... in value order |
| Xnat2Bids.ExtractParamsListCase | tests/test_xnat2bids.py:87-93 | `[1, 2, 3, 4]` under `includeseq` gives the four fragments joined by spaces |
| Xnat2Bids.ExtractParamsRangeCase | tests/test_xnat2bids.py:95-101 | `"1-4, 7, 10"` gives fragments for 1, 2, 3, 4, 7 and 10, joined by spaces |
| Xnat2Bids.ExtractParamsSkipseqCase | tests/test_xnat2bids.py:103-109 | `"3-5, 7"` under `skipseq` gives fragments for 3, 4, 5 and 7, joined by spaces |
| Xnat2Bids.ExtractParamsEmptyCase | tests/test_xnat2bids.py:111-117 | The empty list gives the empty string |
| Xnat2Bids.Encode | tests/test_xnat2bids.py:59-80 | A true switch gives one bare `--name`; a count n gives n copies of `--name`; a list or range string encodes exactly when its values can be listed, giving one element when it has values and none otherwise |
| Xnat2Bids.EncodeMultiTokens | tests/test_xnat2bids.py:57-109 | A list or range string with at least one value becomes one element which, split at spaces, gives `--name`, value, `--name`, value, ... in value order |
| Xnat2Bids.EncodeAll | tests/test_xnat2bids.py:59-80 | The parameters encode exactly when every entry does |
| Xnat2Bids.EmptyRangeTextFails | tests/test_xnat2bids.py:95-109 | An empty range string does not encode, and neither does a dictionary holding it |
| Xnat2Bids.EncodeAllConcat | tests/test_xnat2bids.py:59-80 | Parameters are encoded in dictionary order: encoding a concatenation concatenates the encodings |
| Xnat2Bids.ParseX2bParams | tests/test_xnat2bids.py:57-85 | The session comes first. A configured BIDS root comes second and is appended to the bindings, which otherwise stay as they were. The call fails only when a parameter fails to encode or the root is not a path |
| Xnat2Bids.ParametersFollowPositionals | tests/test_xnat2bids.py:72-80 | After the positionals come the other parameters' encodings, in dictionary order |
| Xnat2Bids.ParseX2bParamsCase | tests/test_xnat2bids.py:57-85 | The test's dictionary gives the expected seven-element argument list and the bindings `["/path/to/bids"]` |

## Left out

- File-system and library effects are left out. This covers `os.walk`, `os.path.isfile`, `pydicom.dcmread`/`save_as`, `shutil.move`/`copy2`, `create_directory`/`makedirs`, pandas CSV reading and `relpath` mirroring. The walk becomes a sequence of `WalkEntry`, the headers a map from file to `Header` (a file missing from the map is not DICOM), and the CSV a sequence of `CsvRow`.
- Copy versus rename (`-r`) is left out: both perform the same move in the model. The errors a move can raise (`SameFileError`, `IOError` and the bare `except`) are not modelled, so every move succeeds.
- Progress and warning messages, argparse, the help text and the confirmation prompt of dicomsort are left out.
- DicomSort.ProcessFiles: the series description is used verbatim, as in the source. A description holding `/` adds directory levels, and one holding `..` components can lead out of the destination. The model promises only that every directory chain starts at the destination, not that the resolved path stays beneath it.
- DicomSort.IsAlnum: covers ASCII letters and digits only, not Unicode `str.isalnum`.
- DICOM numbers are naturals. `int()` of text and the formatting of negative numbers are left out.
- The patient ID tag of dicomsort is left out, because the source defines it but never reads it.
- `run_xnat2bids.py` is left out entirely. It is a script with side effects at import time, and it does not define the functions the tests call. The implementations of `extract_params` and `parse_x2b_params` are not part of this model.
- `test_compile_x2b_lists` is left out, because its input file is not available. Configuration merging, Slurm argument building, job-id harvesting and dependency wiring are left out too.
- Xnat2Bids.Encode: cases the tests do not fix are modelling choices. An empty text value, an empty list and a false switch add nothing. An empty range string is an error, not an empty list: its one piece is not a number, so the whole argument list fails to encode (`EmptyRangeTextFails`). Any other string gives `--name value`. `export-only` is a bare flag, as the test expects.
- Xnat2Bids.Encode: each parameter's kind (text, switch, count or multi-value) comes with its value, as the `ParamValue` constructor, and is not derived from the parameter's name.
- Xnat2Bids.ParseX2bParams: rejecting parameters the tool does not know is left out.
- Xnat2Bids.ParseGroup: only spaces around a range group are stripped, not other whitespace. A range `a-b` with `a > b` stands for no values, and any other malformed group is an error.
- Xnat2Bids.ExtractParamsListCase: the expected strings of the test cases are stated as their fragments joined by single spaces, not as one literal.
- Xnat2Bids.ParseX2bParams: the bindings are returned, not mutated in place.
- Xnat2Bids.ParseX2bParams: binding only `bids_root` is a modelling choice. Other path parameters, such as `bidsmap-file`, are not added to the bindings, although the list-compiling code evidently binds that one too. A `bids_root` that is not a text value failing is a modelling choice as well.

## Findings

| source | as written | input that shows it | evidently intended | confidence | as-written member | corrected member |
|---|---|---|---|---|---|---|
| anonymize_dicoms.py:37-39 | The dot-prefixed extension from `os.path.splitext` is compared with names written without a dot, so no file is ever skipped | `a.json` gives extension `.json`, which is not in the list, so the file is handed to `anonymize_dicom` | Files ending in a dot and a listed extension are skipped, including `.nii.gz` | high, not executed | Anonymize.NothingSkipped | Anonymize.IntendedFilesToAnonymize |
