/** Command-argument encoding for xnat2bids: `extract_params` (list and range expansion)
    and `parse_x2b_params` (positional session and BIDS root, then one encoding per
    parameter). */
module Xnat2Bids {
  import opened Wrappers
  import opened Strings
  import opened Decimal
  import opened OrderedDict

  // ---------------------------------------------------------------------------
  // Range strings such as "1-4, 7, 10"

  /** One comma-separated group of a range string: a number, or an inclusive range. */
  datatype Group = Single(n: nat) | Span(lo: nat, hi: nat)

  /** lo, lo+1, ..., hi; empty when lo > hi. */
  function Interval(lo: nat, hi: nat): (r: seq<nat>)
    ensures |r| == if lo <= hi then hi - lo + 1 else 0
    ensures forall k :: 0 <= k < |r| ==> r[k] == lo + k
    decreases hi + 1 - lo
  {
    if lo > hi then [] else [lo] + Interval(lo + 1, hi)
  }

  function GroupValues(g: Group): seq<nat> {
    match g
    case Single(n) => [n]
    case Span(lo, hi) => Interval(lo, hi)
  }

  /** The numbers a range string stands for: each group in turn. */
  function Expand(gs: seq<Group>): seq<nat>
    decreases |gs|
  {
    if |gs| == 0 then [] else GroupValues(gs[0]) + Expand(gs[1..])
  }

  /** Expansion keeps the order of the groups. */
  lemma {:induction false} ExpandConcat(a: seq<Group>, b: seq<Group>)
    ensures Expand(a + b) == Expand(a) + Expand(b)
    decreases |a|
  {
    if |a| == 0 {
      assert a + b == b;
    } else {
      assert (a + b)[1..] == a[1..] + b;
      ExpandConcat(a[1..], b);
    }
  }

  /** One group: surrounding spaces are ignored. */
  function ParseGroup(piece: string): (r: Result<Group>)
    ensures r.Ok? && r.value.Single? ==> '-' !in Trim(piece)
  {
    ParseTrimmed(Trim(piece))
  }

  /** A group without surrounding spaces: a `-` separates the two ends of a range. */
  function ParseTrimmed(t: string): (r: Result<Group>)
    ensures r.Ok? && r.value.Single? ==> '-' !in t
  {
    if '-' in t then
      var i := IndexOf(t, '-');
      var lo, hi := ParseNat(Trim(t[..i])), ParseNat(Trim(t[i + 1..]));
      if lo.Some? && hi.Some? then Ok(Span(lo.value, hi.value))
      else Err("invalid range: " + t)
    else
      var n := ParseNat(t);
      if n.Some? then Ok(Single(n.value)) else Err("invalid number: " + t)
  }

  function ParseGroups(pieces: seq<string>): (r: Result<seq<Group>>)
    ensures r.Ok? ==> |r.value| == |pieces|
    ensures r.Ok? <==> forall i :: 0 <= i < |pieces| ==> ParseGroup(pieces[i]).Ok?
    ensures r.Ok? ==> forall i :: 0 <= i < |pieces| ==> ParseGroup(pieces[i]) == Ok(r.value[i])
    decreases |pieces|
  {
    if |pieces| == 0 then Ok([])
    else
      var g := ParseGroup(pieces[0]);
      var rest := ParseGroups(pieces[1..]);
      if g.Err? then Err(g.error)
      else if rest.Err? then rest
      else Ok([g.value] + rest.value)
  }

  /** A range string: one group per comma-separated piece, in order. */
  function ParseRanges(s: string): (r: Result<seq<Group>>)
    ensures r.Ok? ==> |r.value| == |Split(s, ',')| && |r.value| >= 1
  {
    ParseGroups(Split(s, ','))
  }

  /** A range string parses exactly when every comma-separated piece does, and then each
      group is the parse of its piece. */
  lemma ParseRangesPieces(s: string)
    ensures ParseRanges(s).Ok? <==> forall i :: 0 <= i < |Split(s, ',')| ==> ParseGroup(Split(s, ',')[i]).Ok?
    ensures ParseRanges(s).Ok? ==>
      forall i :: 0 <= i < |Split(s, ',')| ==> ParseGroup(Split(s, ',')[i]) == Ok(ParseRanges(s).value[i])
  {
    assert ParseRanges(s) == ParseGroups(Split(s, ','));
  }

  /** The canonical text of a group: `n`, or `lo-hi`. */
  function GroupText(g: Group): (t: string)
    ensures |t| > 0 && t[0] != ' ' && t[|t| - 1] != ' ' && ',' !in t
  {
    match g
    case Single(n) => Digits(n)
    case Span(lo, hi) => Digits(lo) + "-" + Digits(hi)
  }

  /** Groups written the way the configuration writes them, `", ".join(...)`. */
  function RenderRanges(gs: seq<Group>): string {
    Join(RangePieces(gs), ",")
  }

  /** The comma-separated pieces of a rendered range string: every piece after the first
      carries the space that follows its comma. */
  function RangePieces(gs: seq<Group>): (ps: seq<string>)
    ensures |ps| == |gs|
    ensures forall i :: 0 <= i < |gs| ==> ps[i] == seq(if i == 0 then 0 else 1, _ => ' ') + GroupText(gs[i])
  {
    seq(|gs|, i requires 0 <= i < |gs| => seq(if i == 0 then 0 else 1, _ => ' ') + GroupText(gs[i]))
  }

  /** A group reads back from its text, with or without leading spaces. */
  lemma ParseGroupText(k: nat, g: Group)
    ensures ParseGroup(seq(k, _ => ' ') + GroupText(g)) == Ok(g)
  {
    TrimSpacesThen(k, GroupText(g));
    match g
    case Single(n) => ParseSingleText(n);
    case Span(lo, hi) => ParseSpanText(lo, hi);
  }

  lemma ParseSingleText(n: nat)
    ensures ParseTrimmed(Digits(n)) == Ok(Single(n))
  {
    ParseDigits(n);
  }

  lemma ParseSpanText(lo: nat, hi: nat)
    ensures ParseTrimmed(Digits(lo) + "-" + Digits(hi)) == Ok(Span(lo, hi))
  {
    var a, b := Digits(lo), Digits(hi);
    var t := a + "-" + b;
    assert t == a + ['-'] + b;
    IndexOfAfterPrefix(a, '-', b);
    var i := IndexOf(t, '-');
    assert t[..i] == a && t[i + 1..] == b;
    assert Trim(a) == a && Trim(b) == b;
    ParseDigits(lo);
    ParseDigits(hi);
  }

  lemma ParseGroupsAll(pieces: seq<string>, gs: seq<Group>)
    requires |pieces| == |gs|
    requires forall i :: 0 <= i < |gs| ==> ParseGroup(pieces[i]) == Ok(gs[i])
    ensures ParseGroups(pieces) == Ok(gs)
  {
    var r := ParseGroups(pieces);
    assert forall i :: 0 <= i < |pieces| ==> ParseGroup(pieces[i]).Ok?;
    assert r.Ok? && |r.value| == |gs|;
    forall i | 0 <= i < |gs|
      ensures r.value[i] == gs[i]
    {
      assert ParseGroup(pieces[i]) == Ok(r.value[i]);
    }
    assert r.value == gs;
  }

  /** Parsing undoes rendering: every non-empty list of groups reads back unchanged. */
  lemma RangesRoundTrip(gs: seq<Group>)
    requires |gs| >= 1
    ensures ParseRanges(RenderRanges(gs)) == Ok(gs)
  {
    var ps := RangePieces(gs);
    forall i | 0 <= i < |ps| ensures ',' !in ps[i] {
      assert ',' !in GroupText(gs[i]);
    }
    SplitJoin(ps, ',');
    forall i | 0 <= i < |gs| ensures ParseGroup(ps[i]) == Ok(gs[i]) {
      ParseGroupText(if i == 0 then 0 else 1, gs[i]);
    }
    ParseGroupsAll(ps, gs);
  }

  // ---------------------------------------------------------------------------
  // extract_params

  /** An element of a list-valued parameter, as the configuration gives it. */
  datatype Atom = Num(n: nat) | Word(w: string)

  /** `str(v)`. */
  function AtomText(a: Atom): string {
    match a
    case Num(n) => Digits(n)
    case Word(w) => w
  }

  /** A multi-value parameter: a list, or a string of numbers and ranges. */
  datatype MultiValue = Items(items: seq<Atom>) | RangeText(text: string)

  function Flag(name: string): string {
    "--" + name
  }

  /** `--name v` for each value, in order. */
  function Fragments(name: string, values: seq<string>): (fs: seq<string>)
    ensures |fs| == |values|
    ensures forall i :: 0 <= i < |values| ==> fs[i] == Flag(name) + " " + values[i]
  {
    seq(|values|, i requires 0 <= i < |values| => Flag(name) + " " + values[i])
  }

  /** `str(n)` of each number, in order. */
  function Numerals(ns: seq<nat>): (vs: seq<string>)
    ensures |vs| == |ns|
    ensures forall i :: 0 <= i < |ns| ==> vs[i] == Digits(ns[i])
  {
    seq(|ns|, i requires 0 <= i < |ns| => Digits(ns[i]))
  }

  /** The values a multi-value parameter stands for, as text. */
  function MultiValues(v: MultiValue): (r: Result<seq<string>>)
    ensures v.Items? ==> r.Ok? && |r.value| == |v.items|
    ensures v.Items? ==> forall i :: 0 <= i < |v.items| ==> r.value[i] == AtomText(v.items[i])
    ensures v.RangeText? ==> (r.Ok? <==> ParseRanges(v.text).Ok?)
    ensures v.RangeText? && r.Ok? ==>
      var ns := Expand(ParseRanges(v.text).value);
      |r.value| == |ns| && forall i :: 0 <= i < |ns| ==> ParseNat(r.value[i]) == Some(ns[i])
  {
    match v
    case Items(xs) => Ok(seq(|xs|, i requires 0 <= i < |xs| => AtomText(xs[i])))
    case RangeText(s) =>
      var gs :- ParseRanges(s);
      NumeralsParse(Expand(gs));
      Ok(Numerals(Expand(gs)))
  }

  /** Each numeral reads back as its number. */
  lemma NumeralsParse(ns: seq<nat>)
    ensures forall i :: 0 <= i < |ns| ==> ParseNat(Numerals(ns)[i]) == Some(ns[i])
  {
    forall i | 0 <= i < |ns| {
      ParseDigits(ns[i]);
    }
  }

  /** `extract_params(name, value)`: one `--name v` fragment per value, joined by single spaces. */
  function ExtractParams(name: string, v: MultiValue): (r: Result<string>)
    ensures v.Items? ==> r.Ok?
    ensures v == Items([]) ==> r == Ok("")
    ensures r.Ok? <==> MultiValues(v).Ok?
    ensures r.Ok? ==> (r.value == "" <==> MultiValues(v).value == [])
  {
    var values :- MultiValues(v);
    assert |values| > 0 ==> Join(Fragments(name, values), " ") != "" by {
      if |values| > 0 { JoinNonEmpty(Fragments(name, values), " "); }
    }
    Ok(Join(Fragments(name, values), " "))
  }

  /** The flag and value tokens of each fragment, in order: what a shell splitting the
      result at spaces sees. */
  function Tokens(name: string, values: seq<string>): (ts: seq<string>)
    ensures |ts| == 2 * |values|
    decreases |values|
  {
    if |values| == 0 then [] else [Flag(name), values[0]] + Tokens(name, values[1..])
  }

  lemma {:induction false} JoinFragments(name: string, values: seq<string>)
    requires |values| >= 1
    ensures Join(Fragments(name, values), " ") == Join(Tokens(name, values), " ")
    decreases |values|
  {
    var fs := Fragments(name, values);
    var ts := Tokens(name, values);
    if |values| == 1 {
      assert Tokens(name, values[1..]) == [];
      assert ts == [Flag(name), values[0]];
      assert ts[1..] == [values[0]];
    } else {
      JoinFragments(name, values[1..]);
      assert fs[1..] == Fragments(name, values[1..]);
      var rest := Tokens(name, values[1..]);
      assert ts[1..] == [values[0]] + rest;
      assert ([values[0]] + rest)[1..] == rest;
    }
  }

  /** Splitting the result at spaces gives back `--name`, value, `--name`, value, ...
      for the values in order, provided the name and the values hold no space. */
  lemma ExtractParamsTokens(name: string, v: MultiValue)
    requires ' ' !in name
    requires MultiValues(v).Ok? && |MultiValues(v).value| >= 1
    requires forall i :: 0 <= i < |MultiValues(v).value| ==> ' ' !in MultiValues(v).value[i]
    ensures Split(ExtractParams(name, v).value, ' ') == Tokens(name, MultiValues(v).value)
  {
    var values := MultiValues(v).value;
    JoinFragments(name, values);
    TokensHaveNoSpace(name, values);
    SplitJoin(Tokens(name, values), ' ');
  }

  lemma {:induction false} TokensHaveNoSpace(name: string, values: seq<string>)
    requires ' ' !in name
    requires forall i :: 0 <= i < |values| ==> ' ' !in values[i]
    ensures forall k :: 0 <= k < |Tokens(name, values)| ==> ' ' !in Tokens(name, values)[k]
    decreases |values|
  {
    if |values| > 0 {
      TokensHaveNoSpace(name, values[1..]);
      assert ' ' !in Flag(name);
      var ts := Tokens(name, values);
      var rest := Tokens(name, values[1..]);
      assert forall k :: 2 <= k < |ts| ==> ts[k] == rest[k - 2];
    }
  }

  /** A range string expands each `a-b` in ascending order and keeps the groups in order:
      its values are those of the groups it was rendered from. */
  lemma RangeTextValues(gs: seq<Group>)
    requires |gs| >= 1
    ensures MultiValues(RangeText(RenderRanges(gs))).Ok?
    ensures MultiValues(RangeText(RenderRanges(gs))).value == Numerals(Expand(gs))
  {
    RangesRoundTrip(gs);
  }

  // ---------------------------------------------------------------------------
  // parse_x2b_params

  const BidsRoot := "bids_root"

  /** A value of the xnat2bids section of the configuration. */
  datatype ParamValue = Text(s: string) | Switch(on: bool) | Count(n: nat) | Multi(v: MultiValue)

  type Params = Entries<ParamValue>

  /** The command and the paths the container must bind. */
  datatype Invocation = Invocation(args: seq<string>, bindings: seq<string>)

  /** The argument list elements one parameter contributes. */
  function Encode(name: string, v: ParamValue): (r: Result<seq<string>>)
    ensures v.Text? && v.s != "" ==> r == Ok([Flag(name) + " " + v.s])
    ensures v.Switch? ==> r == Ok(if v.on then [Flag(name)] else [])
    ensures v.Count? ==> r.Ok? && |r.value| == v.n && forall k :: 0 <= k < v.n ==> r.value[k] == Flag(name)
    ensures v.Multi? && v.v.Items? && |v.v.items| > 0 ==> r.Ok? && |r.value| == 1
    ensures v.Multi? ==> (r.Ok? <==> MultiValues(v.v).Ok?)
    ensures v.Multi? && r.Ok? ==> |r.value| == if MultiValues(v.v).value == [] then 0 else 1
  {
    match v
    case Text(s) => Ok(if s == "" then [] else [Flag(name) + " " + s])
    case Switch(on) => Ok(if on then [Flag(name)] else [])
    case Count(n) => Ok(seq(n, _ => Flag(name)))
    case Multi(mv) =>
      var fragment :- ExtractParams(name, mv);
      if fragment == "" then Ok([]) else Ok([fragment])
  }

  /** A multi-value parameter with at least one value becomes one argument element which,
      split at spaces, gives `--name`, value, `--name`, value, ... for its values in order;
      for a range string the values are its expansion. */
  lemma EncodeMultiTokens(name: string, mv: MultiValue)
    requires ' ' !in name
    requires MultiValues(mv).Ok? && |MultiValues(mv).value| >= 1
    requires forall i :: 0 <= i < |MultiValues(mv).value| ==> ' ' !in MultiValues(mv).value[i]
    ensures Encode(name, Multi(mv)).Ok? && |Encode(name, Multi(mv)).value| == 1
    ensures Split(Encode(name, Multi(mv)).value[0], ' ') == Tokens(name, MultiValues(mv).value)
  {
    var values := MultiValues(mv).value;
    JoinNonEmpty(Fragments(name, values), " ");
    ExtractParamsTokens(name, mv);
  }

  /** An empty range string is not an empty list: its one piece is not a number, so the
      parameter, and with it the whole argument list, fails to encode. */
  lemma EmptyRangeTextFails(name: string)
    ensures Encode(name, Multi(RangeText(""))).Err?
    ensures name != BidsRoot ==> EncodeAll([(name, Multi(RangeText("")))]).Err?
  {
    assert Split("", ',') == [""];
    assert Trim("") == "";
    assert ParseGroup("").Err?;
    assert ParseRanges("").Err?;
  }

  lemma JoinNonEmpty(xs: seq<string>, sep: string)
    requires |xs| >= 1 && |xs[0]| > 0
    ensures Join(xs, sep) != ""
  {
  }

  /** What one dictionary entry contributes: nothing for `bids_root`, which is positional. */
  function EncodeEntry(e: (string, ParamValue)): Result<seq<string>> {
    if e.0 == BidsRoot then Ok([]) else Encode(e.0, e.1)
  }

  /** Every parameter except `bids_root`, encoded in dictionary order. */
  function EncodeAll(params: Params): (r: Result<seq<string>>)
    ensures r.Ok? <==> forall i :: 0 <= i < |params| ==> EncodeEntry(params[i]).Ok?
    decreases |params|
  {
    if |params| == 0 then Ok([])
    else
      var head := EncodeEntry(params[0]);
      var rest := EncodeAll(params[1..]);
      if head.Err? then Err(head.error)
      else if rest.Err? then rest
      else Ok(head.value + rest.value)
  }

  /** Parameters keep their dictionary order: encoding a concatenation concatenates the encodings. */
  lemma {:induction false} EncodeAllConcat(a: Params, b: Params)
    requires EncodeAll(a).Ok? && EncodeAll(b).Ok?
    ensures EncodeAll(a + b) == Ok(EncodeAll(a).value + EncodeAll(b).value)
    decreases |a|
  {
    if |a| == 0 {
      assert a + b == b;
      assert EncodeAll(a).value == [];
      assert EncodeAll(a).value + EncodeAll(b).value == EncodeAll(b).value;
    } else {
      assert (a + b)[0] == a[0];
      assert (a + b)[1..] == a[1..] + b;
      assert EncodeEntry(a[0]).Ok? && EncodeAll(a[1..]).Ok?;
      EncodeAllConcat(a[1..], b);
      var h, x, y := EncodeEntry(a[0]).value, EncodeAll(a[1..]).value, EncodeAll(b).value;
      assert EncodeAll(a).value == h + x;
      assert EncodeAll(a + b) == Ok(h + (x + y));
      assert h + (x + y) == (h + x) + y;
    }
  }

  /** `parse_x2b_params(params, session, bindings)`: the session, then the BIDS root when
      configured (which is also appended to the bindings), then every other parameter. */
  function ParseX2bParams(params: Params, session: string, bindings: seq<string>): (r: Result<Invocation>)
    requires UniqueKeys(params)
    ensures r.Ok? ==> |r.value.args| >= 1 && r.value.args[0] == session
    ensures r.Ok? && Get(params, BidsRoot).Some? ==>
      |r.value.args| >= 2 && Get(params, BidsRoot) == Some(Text(r.value.args[1]))
      && r.value.bindings == bindings + [r.value.args[1]]
    ensures r.Ok? && Get(params, BidsRoot).None? ==> r.value.bindings == bindings
    ensures r.Ok? <==> EncodeAll(params).Ok? && (Get(params, BidsRoot).Some? ==> Get(params, BidsRoot).value.Text?)
  {
    var rest :- EncodeAll(params);
    match Get(params, BidsRoot)
    case None => Ok(Invocation([session] + rest, bindings))
    case Some(root) =>
      if root.Text? then Ok(Invocation([session, root.s] + rest, bindings + [root.s]))
      else Err("bids_root must be a path")
  }

  /** After the positional arguments come the other parameters' encodings, in order. */
  lemma ParametersFollowPositionals(params: Params, session: string, bindings: seq<string>)
    requires UniqueKeys(params)
    requires ParseX2bParams(params, session, bindings).Ok?
    ensures var args := ParseX2bParams(params, session, bindings).value.args;
      var n := if Get(params, BidsRoot).Some? then 2 else 1;
      |args| >= n && args[n..] == EncodeAll(params).value
  {
  }

  // ---------------------------------------------------------------------------
  // The cases the test suite fixes

  lemma SmallDigits()
    ensures Digits(1) == "1" && Digits(2) == "2" && Digits(3) == "3" && Digits(4) == "4"
    ensures Digits(5) == "5" && Digits(7) == "7" && Digits(10) == "10"
  {
    assert Digits(10) == Digits(1) + [DigitChar(0)];
  }

  lemma ListCaseValues()
    ensures MultiValues(Items([Num(1), Num(2), Num(3), Num(4)])) == Ok(["1", "2", "3", "4"])
  {
    SmallDigits();
    var xs := [Num(1), Num(2), Num(3), Num(4)];
    var vs := MultiValues(Items(xs)).value;
    assert AtomText(xs[0]) == "1" && AtomText(xs[1]) == "2" && AtomText(xs[2]) == "3" && AtomText(xs[3]) == "4";
    assert |vs| == 4 && vs[0] == "1" && vs[1] == "2" && vs[2] == "3" && vs[3] == "4";
    assert vs == ["1", "2", "3", "4"];
  }

  lemma ListCaseFragments()
    ensures Fragments("includeseq", ["1", "2", "3", "4"])
      == ["--includeseq 1", "--includeseq 2", "--includeseq 3", "--includeseq 4"]
  {
    var fs := Fragments("includeseq", ["1", "2", "3", "4"]);
    assert fs[0] == "--includeseq 1" && fs[1] == "--includeseq 2";
    assert fs[2] == "--includeseq 3" && fs[3] == "--includeseq 4";
  }

  /** `test_extract_params_list`; the expected string is written as its four fragments
      joined by single spaces. */
  lemma ExtractParamsListCase()
    ensures ExtractParams("includeseq", Items([Num(1), Num(2), Num(3), Num(4)]))
      == Ok(Join(["--includeseq 1", "--includeseq 2", "--includeseq 3", "--includeseq 4"], " "))
  {
    ListCaseValues();
    ListCaseFragments();
  }

  lemma RangeCasePieces()
    ensures RangePieces([Span(1, 4), Single(7), Single(10)]) == ["1-4", " 7", " 10"]
  {
    SmallDigits();
    var ps := RangePieces([Span(1, 4), Single(7), Single(10)]);
    assert ps[0] == "1-4" && ps[1] == " 7" && ps[2] == " 10";
  }

  /** The range string of the tests reads as the groups 1-4, 7 and 10. */
  lemma RangeCaseGroups()
    ensures RenderRanges([Span(1, 4), Single(7), Single(10)]) == "1-4, 7, 10"
    ensures Expand([Span(1, 4), Single(7), Single(10)]) == [1, 2, 3, 4, 7, 10]
  {
    RangeCasePieces();
    var ps := ["1-4", " 7", " 10"];
    assert ps[1..] == [" 7", " 10"] && ps[1..][1..] == [" 10"];
    assert Join([" 10"], ",") == " 10";
    assert Join([" 7", " 10"], ",") == " 7" + "," + " 10";
    assert Join(ps, ",") == "1-4" + "," + (" 7" + "," + " 10");
    var gs := [Span(1, 4), Single(7), Single(10)];
    assert Interval(1, 4) == [1, 2, 3, 4];
    assert gs[1..] == [Single(7), Single(10)] && gs[1..][1..] == [Single(10)];
  }

  lemma RangeCaseExpanded()
    ensures MultiValues(RangeText("1-4, 7, 10")) == Ok(Numerals([1, 2, 3, 4, 7, 10]))
  {
    RangeCaseGroups();
    RangeTextValues([Span(1, 4), Single(7), Single(10)]);
  }

  lemma RangeCaseNumerals()
    ensures Numerals([1, 2, 3, 4, 7, 10]) == ["1", "2", "3", "4", "7", "10"]
  {
    SmallDigits();
    var vs := Numerals([1, 2, 3, 4, 7, 10]);
    assert vs[0] == "1" && vs[1] == "2" && vs[2] == "3" && vs[3] == "4" && vs[4] == "7" && vs[5] == "10";
  }

  lemma RangeCaseFragments()
    ensures Fragments("includeseq", ["1", "2", "3", "4", "7", "10"])
      == ["--includeseq 1", "--includeseq 2", "--includeseq 3", "--includeseq 4",
          "--includeseq 7", "--includeseq 10"]
  {
    var fs := Fragments("includeseq", ["1", "2", "3", "4", "7", "10"]);
    assert fs[0] == "--includeseq 1" && fs[1] == "--includeseq 2" && fs[2] == "--includeseq 3";
    assert fs[3] == "--includeseq 4" && fs[4] == "--includeseq 7" && fs[5] == "--includeseq 10";
  }

  /** `test_extract_params_range`; the expected string is written as its six fragments
      joined by single spaces. */
  lemma ExtractParamsRangeCase()
    ensures ExtractParams("includeseq", RangeText("1-4, 7, 10"))
      == Ok(Join(["--includeseq 1", "--includeseq 2", "--includeseq 3", "--includeseq 4",
                  "--includeseq 7", "--includeseq 10"], " "))
  {
    RangeCaseExpanded();
    RangeCaseNumerals();
    RangeCaseFragments();
  }

  lemma SkipseqCaseGroups()
    ensures RenderRanges([Span(3, 5), Single(7)]) == "3-5, 7"
    ensures Expand([Span(3, 5), Single(7)]) == [3, 4, 5, 7]
  {
    SmallDigits();
    var gs := [Span(3, 5), Single(7)];
    var ps := RangePieces(gs);
    assert ps[0] == "3-5" && ps[1] == " 7";
    assert ps == ["3-5", " 7"];
    assert ps[1..] == [" 7"];
    assert Join([" 7"], ",") == " 7";
    assert Join(ps, ",") == "3-5" + "," + " 7";
    assert Interval(3, 5) == [3, 4, 5];
    assert gs[1..] == [Single(7)];
  }

  lemma SkipseqCaseExpanded()
    ensures MultiValues(RangeText("3-5, 7")) == Ok(Numerals([3, 4, 5, 7]))
  {
    SkipseqCaseGroups();
    RangeTextValues([Span(3, 5), Single(7)]);
  }

  lemma SkipseqCaseNumerals()
    ensures Numerals([3, 4, 5, 7]) == ["3", "4", "5", "7"]
  {
    SmallDigits();
    var vs := Numerals([3, 4, 5, 7]);
    assert vs[0] == "3" && vs[1] == "4" && vs[2] == "5" && vs[3] == "7";
  }

  lemma SkipseqCaseFragments()
    ensures Fragments("skipseq", ["3", "4", "5", "7"])
      == ["--skipseq 3", "--skipseq 4", "--skipseq 5", "--skipseq 7"]
  {
    var fs := Fragments("skipseq", ["3", "4", "5", "7"]);
    assert fs[0] == "--skipseq 3" && fs[1] == "--skipseq 4" && fs[2] == "--skipseq 5" && fs[3] == "--skipseq 7";
  }

  /** `test_extract_params_skipseq`. */
  lemma ExtractParamsSkipseqCase()
    ensures ExtractParams("skipseq", RangeText("3-5, 7"))
      == Ok(Join(["--skipseq 3", "--skipseq 4", "--skipseq 5", "--skipseq 7"], " "))
  {
    SkipseqCaseExpanded();
    SkipseqCaseNumerals();
    SkipseqCaseFragments();
  }

  lemma ExtractParamsEmptyCase()
    ensures ExtractParams("includeseq", Items([])) == Ok("")
  {
  }

  /** The configuration of `test_parse_x2b_params`. */
  const X2bCaseParams: Params := [
    (BidsRoot, Text("/path/to/bids")),
    ("includeseq", Multi(Items([Word("t1w"), Word("t2w")]))),
    ("export-only", Switch(true)),
    ("verbose", Count(3))]

  lemma X2bCaseFragments()
    ensures Fragments("includeseq", MultiValues(Items([Word("t1w"), Word("t2w")])).value)
      == ["--includeseq t1w", "--includeseq t2w"]
  {
    var vs := MultiValues(Items([Word("t1w"), Word("t2w")])).value;
    assert vs == ["t1w", "t2w"];
    var fs := Fragments("includeseq", vs);
    assert fs[0] == "--includeseq t1w" && fs[1] == "--includeseq t2w";
  }

  lemma X2bCaseJoin()
    ensures Join(["--includeseq t1w", "--includeseq t2w"], " ") == "--includeseq t1w --includeseq t2w"
  {
    var fs := ["--includeseq t1w", "--includeseq t2w"];
    assert fs[1..] == ["--includeseq t2w"];
    assert Join(fs, " ") == "--includeseq t1w" + " " + "--includeseq t2w";
  }

  lemma X2bCaseIncludeseq()
    ensures Encode("includeseq", Multi(Items([Word("t1w"), Word("t2w")])))
      == Ok(["--includeseq t1w --includeseq t2w"])
  {
    X2bCaseFragments();
    X2bCaseJoin();
  }

  lemma X2bCaseVerbose()
    ensures Encode("verbose", Count(3)) == Ok(["--verbose", "--verbose", "--verbose"])
  {
    var v := Encode("verbose", Count(3)).value;
    assert Flag("verbose") == "--verbose";
    assert |v| == 3 && v[0] == "--verbose" && v[1] == "--verbose" && v[2] == "--verbose";
    assert v == ["--verbose", "--verbose", "--verbose"];
  }

  lemma X2bCaseEncodeAll()
    ensures EncodeAll(X2bCaseParams)
      == Ok(["--includeseq t1w --includeseq t2w", "--export-only", "--verbose", "--verbose", "--verbose"])
  {
    var p := X2bCaseParams;
    var fromInclude := p[1..];
    var fromExport := fromInclude[1..];
    var fromVerbose := fromExport[1..];
    X2bCaseIncludeseq();
    X2bCaseVerbose();
    var verbose := ["--verbose", "--verbose", "--verbose"];
    assert "verbose" != BidsRoot && "export-only" != BidsRoot && "includeseq" != BidsRoot;
    assert fromVerbose[1..] == [];
    assert EncodeAll(fromVerbose) == Ok(verbose + []);
    assert verbose + [] == verbose;
    assert |fromExport| == 2;
    assert Flag("export-only") == "--export-only";
    assert fromExport[0] == ("export-only", Switch(true));
    assert EncodeEntry(fromExport[0]) == Ok(["--export-only"]);
    assert EncodeAll(fromExport) == Ok(["--export-only"] + verbose);
    assert EncodeAll(fromInclude) == Ok(["--includeseq t1w --includeseq t2w"] + (["--export-only"] + verbose));
    assert EncodeAll(p) == Ok([] + (["--includeseq t1w --includeseq t2w"] + (["--export-only"] + verbose)));
    assert [] + (["--includeseq t1w --includeseq t2w"] + (["--export-only"] + verbose))
      == ["--includeseq t1w --includeseq t2w", "--export-only", "--verbose", "--verbose", "--verbose"];
  }

  /** `test_parse_x2b_params`. */
  lemma ParseX2bParamsCase()
    ensures UniqueKeys(X2bCaseParams)
    ensures ParseX2bParams(X2bCaseParams, "test_session", []) == Ok(Invocation(
        ["test_session", "/path/to/bids", "--includeseq t1w --includeseq t2w",
         "--export-only", "--verbose", "--verbose", "--verbose"],
        ["/path/to/bids"]))
  {
    X2bCaseEncodeAll();
    var rest := EncodeAll(X2bCaseParams).value;
    assert Get(X2bCaseParams, BidsRoot) == Some(Text("/path/to/bids"));
    assert ParseX2bParams(X2bCaseParams, "test_session", [])
      == Ok(Invocation(["test_session", "/path/to/bids"] + rest, [] + ["/path/to/bids"]));
    assert ["test_session", "/path/to/bids"] + rest
      == ["test_session", "/path/to/bids", "--includeseq t1w --includeseq t2w",
          "--export-only", "--verbose", "--verbose", "--verbose"];
    assert [] + ["/path/to/bids"] == ["/path/to/bids"];
  }
}
