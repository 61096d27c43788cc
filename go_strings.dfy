/**
 * The three string operations of Go's `strings` package that the decoder
 * relies on, with the accumulation idiom the source uses in place of a join:
 * every item is appended followed by the separator, and the final separator
 * is trimmed off afterwards.
 */
module GoStrings {

  /** The items separated by `sep` (Go's `strings.Join`). */
  function Join(xs: seq<string>, sep: char): string
    decreases |xs|
  {
    if |xs| == 0 then ""
    else if |xs| == 1 then xs[0]
    else xs[0] + [sep] + Join(xs[1..], sep)
  }

  /** Every item followed by `sep`: what the accumulating loop builds. */
  function Terminated(xs: seq<string>, sep: char): (r: string)
    decreases |xs|
  {
    if xs == [] then "" else xs[0] + [sep] + Terminated(xs[1..], sep)
  }

  /** Go's `strings.TrimSuffix`: drop one trailing `suffix` if present. */
  function TrimSuffix(s: string, suffix: string): (r: string)
    ensures r == s || r + suffix == s
    ensures (|suffix| <= |s| && s[|s| - |suffix|..] == suffix) <==> r + suffix == s
  {
    if |suffix| <= |s| && s[|s| - |suffix|..] == suffix then s[..|s| - |suffix|] else s
  }

  /**
   * Go's `strings.Split` for a one-character separator: the pieces between
   * the separators; the empty string gives one empty piece.
   */
  function Split(s: string, sep: char): (r: seq<string>)
    ensures |r| >= 1
    decreases |s|
  {
    if s == [] then [""]
    else
      var rest := Split(s[1..], sep);
      if s[0] == sep then [""] + rest else [[s[0]] + rest[0]] + rest[1..]
  }

  /** Appending one more item extends the accumulated text by that item and a separator. */
  lemma {:induction false} TerminatedAppend(xs: seq<string>, x: string, sep: char)
    ensures Terminated(xs + [x], sep) == Terminated(xs, sep) + x + [sep]
    decreases |xs|
  {
    if xs != [] {
      assert (xs + [x])[1..] == xs[1..] + [x];
      TerminatedAppend(xs[1..], x, sep);
    }
  }

  lemma {:induction false} TerminatedIsJoinPlusSep(xs: seq<string>, sep: char)
    requires |xs| >= 1
    ensures Terminated(xs, sep) == Join(xs, sep) + [sep]
    decreases |xs|
  {
    if |xs| > 1 {
      TerminatedIsJoinPlusSep(xs[1..], sep);
    }
  }

  /** Trimming the last separator off the accumulated text gives the join. */
  lemma TrimTerminated(xs: seq<string>, sep: char)
    ensures TrimSuffix(Terminated(xs, sep), [sep]) == Join(xs, sep)
  {
    if |xs| >= 1 {
      TerminatedIsJoinPlusSep(xs, sep);
      var t := Terminated(xs, sep);
      assert t[|t| - 1..] == [sep];
      assert t[..|t| - 1] == Join(xs, sep);
    }
  }

  /** Splitting at one separator splits the two sides independently. */
  lemma {:induction false} SplitAround(a: string, b: string, sep: char)
    ensures Split(a + [sep] + b, sep) == Split(a, sep) + Split(b, sep)
    decreases |a|
  {
    var s := a + [sep] + b;
    if a == [] {
      assert s[1..] == b;
    } else {
      assert s[1..] == a[1..] + [sep] + b;
      SplitAround(a[1..], b, sep);
    }
  }

  /** A text without the separator is one piece. */
  lemma {:induction false} SplitWithoutSep(a: string, sep: char)
    requires sep !in a
    ensures Split(a, sep) == [a]
    decreases |a|
  {
    if a != [] {
      assert sep !in a[1..] by {
        forall i | 0 <= i < |a[1..]| ensures a[1..][i] != sep { assert a[1..][i] == a[i + 1]; }
      }
      SplitWithoutSep(a[1..], sep);
      assert [a[0]] + a[1..] == a;
    }
  }

  /** Split undoes Join when no item contains the separator. */
  lemma {:induction false} SplitJoin(xs: seq<string>, sep: char)
    requires |xs| >= 1
    requires forall i :: 0 <= i < |xs| ==> sep !in xs[i]
    ensures Split(Join(xs, sep), sep) == xs
    decreases |xs|
  {
    SplitWithoutSep(xs[0], sep);
    if |xs| > 1 {
      SplitAround(xs[0], Join(xs[1..], sep), sep);
      SplitJoin(xs[1..], sep);
      assert [xs[0]] + xs[1..] == xs;
    }
  }

  /** Whatever the items hold, splitting their join gives at least as many pieces. */
  lemma {:induction false} SplitJoinLength(xs: seq<string>, sep: char)
    requires |xs| >= 1
    ensures |Split(Join(xs, sep), sep)| >= |xs|
    decreases |xs|
  {
    if |xs| > 1 {
      SplitAround(xs[0], Join(xs[1..], sep), sep);
      SplitJoinLength(xs[1..], sep);
    }
  }

  /** Join undoes Split, and no piece holds the separator. */
  lemma {:induction false} JoinSplit(s: string, sep: char)
    ensures Join(Split(s, sep), sep) == s
    ensures forall i :: 0 <= i < |Split(s, sep)| ==> sep !in Split(s, sep)[i]
    decreases |s|
  {
    if s != [] {
      var rest := Split(s[1..], sep);
      JoinSplit(s[1..], sep);
      if s[0] == sep {
        assert ([""] + rest)[1..] == rest;
        assert Join([""] + rest, sep) == [sep] + s[1..];
        assert s == [s[0]] + s[1..];
      } else {
        var r := [[s[0]] + rest[0]] + rest[1..];
        assert r[1..] == rest[1..];
        if |rest| == 1 {
          assert Join(r, sep) == [s[0]] + Join(rest, sep);
        } else {
          assert Join(rest, sep) == rest[0] + [sep] + Join(rest[1..], sep);
          assert Join(r, sep) == [s[0]] + Join(rest, sep);
        }
        assert s == [s[0]] + s[1..];
        forall i | 0 <= i < |r| ensures sep !in r[i] {
          if i > 0 { assert r[i] == rest[i]; }
        }
      }
    }
  }
}
