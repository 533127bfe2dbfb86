/** String helpers with the semantics of the Python built-ins the scripts rely on. */
module Strings {

  /** Python's `<` on `str`: code-point lexicographic order, a proper prefix sorting first. */
  predicate LexLess(s: string, t: string)
    decreases |s|
  {
    if |s| == 0 then |t| > 0
    else |t| > 0 && (s[0] < t[0] || (s[0] == t[0] && LexLess(s[1..], t[1..])))
  }

  /** Comparing two strings that start with blocks of equal length compares the
      blocks first and the remainders only on a tie. */
  lemma {:induction false} LexLessConcat(a: string, b: string, c: string, d: string)
    requires |a| == |c|
    ensures LexLess(a + b, c + d) <==> LexLess(a, c) || (a == c && LexLess(b, d))
    decreases |a|
  {
    if |a| == 0 {
      assert a + b == b && c + d == d;
    } else {
      assert (a + b)[0] == a[0] && (c + d)[0] == c[0];
      assert (a + b)[1..] == a[1..] + b && (c + d)[1..] == c[1..] + d;
      LexLessConcat(a[1..], b, c[1..], d);
      if a[0] == c[0] && a[1..] == c[1..] {
        assert a == c;
      }
      if a == c {
        assert a[1..] == c[1..];
      }
    }
  }

  /** LexLess is a strict order: nothing is below itself. */
  lemma {:induction false} LexLessIrreflexive(s: string)
    ensures !LexLess(s, s)
    decreases |s|
  {
    if |s| > 0 {
      LexLessIrreflexive(s[1..]);
    }
  }

  /** Python's `sep.join(xs)`. */
  function Join(xs: seq<string>, sep: string): string
    decreases |xs|
  {
    if |xs| == 0 then ""
    else if |xs| == 1 then xs[0]
    else xs[0] + sep + Join(xs[1..], sep)
  }

  /** Index of the first occurrence of `c` in `s` (Python's `s.index(c)`). */
  function IndexOf(s: string, c: char): (i: nat)
    requires c in s
    ensures i < |s| && s[i] == c && c !in s[..i]
  {
    if s[0] == c then 0
    else
      assert s == [s[0]] + s[1..];
      var j := IndexOf(s[1..], c);
      assert s[..j + 1] == [s[0]] + s[1..][..j];
      j + 1
  }

  /** When `c` does not occur in `a`, the first `c` of `a + [c] + b` is the one after `a`. */
  lemma IndexOfAfterPrefix(a: string, c: char, b: string)
    requires c !in a
    ensures c in a + [c] + b && IndexOf(a + [c] + b, c) == |a|
  {
    var s := a + [c] + b;
    assert s[|a|] == c;
    assert s[..|a|] == a;
  }

  /** Python's `s.split(c)` for a one-character separator. */
  function Split(s: string, c: char): (parts: seq<string>)
    ensures |parts| >= 1
    ensures forall k :: 0 <= k < |parts| ==> c !in parts[k]
    ensures Join(parts, [c]) == s
    decreases |s|
  {
    if c !in s then [s]
    else
      var i := IndexOf(s, c);
      var rest := Split(s[i + 1..], c);
      assert s == s[..i] + [c] + s[i + 1..];
      [s[..i]] + rest
  }

  /** Splitting undoes joining, provided no part contains the separator. */
  lemma {:induction false} SplitJoin(parts: seq<string>, c: char)
    requires |parts| >= 1
    requires forall k :: 0 <= k < |parts| ==> c !in parts[k]
    ensures Split(Join(parts, [c]), c) == parts
    decreases |parts|
  {
    if |parts| > 1 {
      var s := Join(parts, [c]);
      assert s == parts[0] + [c] + Join(parts[1..], [c]);
      IndexOfAfterPrefix(parts[0], c, Join(parts[1..], [c]));
      assert s[..|parts[0]|] == parts[0];
      assert s[|parts[0]| + 1..] == Join(parts[1..], [c]);
      SplitJoin(parts[1..], c);
      assert parts == [parts[0]] + parts[1..];
    }
  }

  /** Python's `s.strip(' ')`: leading and trailing spaces removed. */
  function Trim(s: string): (r: string)
    ensures |r| == 0 || (r[0] != ' ' && r[|r| - 1] != ' ')
    ensures forall k :: 0 <= k < |r| ==> r[k] in s
    decreases |s|
  {
    if |s| > 0 && s[0] == ' ' then Trim(s[1..])
    else if |s| > 0 && s[|s| - 1] == ' ' then Trim(s[..|s| - 1])
    else s
  }

  /** Trimming keeps a string unchanged when it neither starts nor ends with a space,
      and strips any run of leading spaces in front of such a string. */
  lemma {:induction false} TrimSpacesThen(k: nat, s: string)
    requires |s| > 0 && s[0] != ' ' && s[|s| - 1] != ' '
    ensures Trim(seq(k, _ => ' ') + s) == s
    decreases k
  {
    var p := seq(k, _ => ' ') + s;
    if k > 0 {
      assert p[1..] == seq(k - 1, _ => ' ') + s;
      TrimSpacesThen(k - 1, s);
    } else {
      assert p == s;
    }
  }

  /** Trimming strips any run of spaces on either side of a string that neither starts
      nor ends with a space, and keeps that string whole. */
  lemma TrimPadded(j: nat, s: string, k: nat)
    requires |s| > 0 && s[0] != ' ' && s[|s| - 1] != ' '
    ensures Trim(seq(j, _ => ' ') + s + seq(k, _ => ' ')) == s
  {
    var lead, trail := seq(j, _ => ' '), seq(k, _ => ' ');
    assert AllSpaces(lead) && AllSpaces(trail);
    TrimLeading(lead, s, trail);
  }

  predicate AllSpaces(t: string) {
    forall i :: 0 <= i < |t| ==> t[i] == ' '
  }

  lemma {:induction false} TrimLeading(lead: string, s: string, trail: string)
    requires |s| > 0 && s[0] != ' ' && s[|s| - 1] != ' '
    requires AllSpaces(lead) && AllSpaces(trail)
    ensures Trim(lead + s + trail) == s
    decreases |lead|
  {
    if |lead| > 0 {
      var p := lead + s + trail;
      assert p[0] == ' ';
      assert p[1..] == lead[1..] + s + trail;
      TrimLeading(lead[1..], s, trail);
    } else {
      assert lead + s + trail == s + trail;
      TrimTrailing(s, trail);
    }
  }

  lemma {:induction false} TrimTrailing(s: string, trail: string)
    requires |s| > 0 && s[0] != ' ' && s[|s| - 1] != ' '
    requires AllSpaces(trail)
    ensures Trim(s + trail) == s
    decreases |trail|
  {
    if |trail| > 0 {
      var p := s + trail;
      var q := s + trail[..|trail| - 1];
      assert p[0] == s[0] && p[|p| - 1] == ' ';
      assert p[..|p| - 1] == q;
      TrimTrailing(s, trail[..|trail| - 1]);
    } else {
      assert s + trail == s;
    }
  }
}
