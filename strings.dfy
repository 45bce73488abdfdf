/** The two functions of Go's `strings` package that the gateway relies on,
    `HasPrefix` and `Split` (for a one-character separator), together with
    `Join`, the inverse that pins down what `Split` means. Go strings are
    byte sequences; each `char` here stands for one byte. */
module GoStrings {

  /** strings.HasPrefix: `prefix` is an initial segment of `s`. */
  predicate HasPrefix(s: string, prefix: string)
  {
    |prefix| <= |s| && s[..|prefix|] == prefix
  }

  /** A prefix made of two pieces is tested piece by piece: `s` starts with
      `p + q` exactly when it starts with `p` and the rest starts with `q`. */
  lemma HasPrefixConcat(s: string, p: string, q: string)
    ensures HasPrefix(s, p + q) <==> HasPrefix(s, p) && HasPrefix(s[|p|..], q)
  {
    if HasPrefix(s, p + q) {
      assert s[..|p|] == (p + q)[..|p|] == p;
      assert s[|p|..][..|q|] == s[..|p| + |q|][|p|..];
      assert (p + q)[|p|..] == q;
    }
    if HasPrefix(s, p) && HasPrefix(s[|p|..], q) {
      assert s[..|p| + |q|] == s[..|p|] + s[|p|..][..|q|];
    }
  }

  /** strings.Split(s, string([sep])): the pieces of `s` between occurrences
      of `sep`, in order. There is always one more piece than there are
      separators (SplitCount), so the result is never empty and `Split("")`
      is `[""]`; no piece contains the separator. */
  function Split(s: string, sep: char): (parts: seq<string>)
    ensures |parts| >= 1
    ensures forall i :: 0 <= i < |parts| ==> sep !in parts[i]
    decreases |s|
  {
    if |s| == 0 then [""]
    else
      var rest := Split(s[1..], sep);
      if s[0] == sep then [""] + rest
      else [[s[0]] + rest[0]] + rest[1..]
  }

  /** Split yields one piece more than `s` has separators. */
  lemma {:induction false} SplitCount(s: string, sep: char)
    ensures |Split(s, sep)| == multiset(s)[sep] + 1
    decreases |s|
  {
    if |s| > 0 {
      SplitCount(s[1..], sep);
      assert s == [s[0]] + s[1..];
    }
  }

  /** strings.Join(parts, string([sep])). */
  function Join(parts: seq<string>, sep: char): string
  {
    if |parts| == 0 then ""
    else if |parts| == 1 then parts[0]
    else parts[0] + [sep] + Join(parts[1..], sep)
  }

  /** Joining the pieces of a split with the same separator gives back the
      original string. */
  lemma {:induction false} JoinSplit(s: string, sep: char)
    ensures Join(Split(s, sep), sep) == s
    decreases |s|
  {
    if |s| > 0 {
      JoinSplit(s[1..], sep);
      JoinSplitStep(s, sep);
    }
  }

  /** One step of JoinSplit: the first character is put back in front. */
  lemma JoinSplitStep(s: string, sep: char)
    requires |s| > 0 && Join(Split(s[1..], sep), sep) == s[1..]
    ensures Join(Split(s, sep), sep) == s
  {
    var rest := Split(s[1..], sep);
    var parts := Split(s, sep);
    assert [s[0]] + s[1..] == s;
    if s[0] == sep {
      assert parts == [""] + rest;
      JoinCons("", rest, sep);
    } else if |rest| == 1 {
      assert parts == [[s[0]] + rest[0]];
    } else {
      assert parts == [[s[0]] + rest[0]] + rest[1..];
      assert Join(rest, sep) == rest[0] + [sep] + Join(rest[1..], sep) by {
        JoinCons(rest[0], rest[1..], sep);
        assert [rest[0]] + rest[1..] == rest;
      }
      JoinCons([s[0]] + rest[0], rest[1..], sep);
    }
  }

  /** Join of a piece followed by a non-empty list. */
  lemma JoinCons(p: string, rest: seq<string>, sep: char)
    requires |rest| >= 1
    ensures Join([p] + rest, sep) == p + [sep] + Join(rest, sep)
  {
    assert ([p] + rest)[1..] == rest;
  }

  /** A string without the separator is split into itself alone. */
  lemma {:induction false} SplitWithoutSeparator(p: string, sep: char)
    requires sep !in p
    ensures Split(p, sep) == [p]
    decreases |p|
  {
    if |p| > 0 {
      SplitWithoutSeparator(p[1..], sep);
      assert [p[0]] + p[1..] == p;
    }
  }

  /** Splitting `p + [sep] + rest`, where `p` holds no separator, yields `p`
      followed by the pieces of `rest`. */
  lemma {:induction false} SplitAfterPiece(p: string, sep: char, rest: string)
    requires sep !in p
    ensures Split(p + [sep] + rest, sep) == [p] + Split(rest, sep)
    decreases |p|
  {
    var s := p + [sep] + rest;
    if |p| == 0 {
      assert s[1..] == rest;
    } else {
      assert s[1..] == p[1..] + [sep] + rest;
      SplitAfterPiece(p[1..], sep, rest);
      assert [p[0]] + p[1..] == p;
    }
  }

  /** The other direction of the round trip: a non-empty list of
      separator-free pieces is recovered by splitting its join. */
  lemma {:induction false} SplitJoin(parts: seq<string>, sep: char)
    requires |parts| >= 1
    requires forall i :: 0 <= i < |parts| ==> sep !in parts[i]
    ensures Split(Join(parts, sep), sep) == parts
    decreases |parts|
  {
    if |parts| == 1 {
      SplitWithoutSeparator(parts[0], sep);
    } else {
      assert sep !in parts[0];
      SplitJoin(parts[1..], sep);
      SplitAfterPiece(parts[0], sep, Join(parts[1..], sep));
      assert [parts[0]] + parts[1..] == parts;
    }
  }

  /** The final piece of a split is the part of `s` after its last
      separator: a separator-free suffix of `s` that is either all of `s` or
      immediately preceded by a separator. */
  lemma {:induction false} SplitLastPiece(s: string, sep: char)
    ensures var parts := Split(s, sep);
      var last := parts[|parts| - 1];
      |last| <= |s| && last == s[|s| - |last|..] &&
      (|last| < |s| ==> s[|s| - |last| - 1] == sep)
    decreases |s|
  {
    if |s| > 0 {
      var rest := Split(s[1..], sep);
      SplitLastPiece(s[1..], sep);
      var parts := Split(s, sep);
      if s[0] == sep {
        assert parts == [""] + rest;
      } else if |rest| == 1 {
        JoinSplit(s[1..], sep);
        assert parts == [[s[0]] + rest[0]];
        assert parts[0] == s;
      } else {
        assert parts == [[s[0]] + rest[0]] + rest[1..];
        assert parts[|parts| - 1] == rest[|rest| - 1];
        SplitCount(s[1..], sep);
        assert sep in multiset(s[1..]);
      }
    }
  }

  /** At most one string has the shape that SplitLastPiece describes, so that
      shape determines the final piece. */
  lemma LastPieceUnique(s: string, sep: char, t: string, u: string)
    requires |t| <= |s| && t == s[|s| - |t|..] && sep !in t && (|t| < |s| ==> s[|s| - |t| - 1] == sep)
    requires |u| <= |s| && u == s[|s| - |u|..] && sep !in u && (|u| < |s| ==> s[|s| - |u| - 1] == sep)
    ensures t == u
  {
  }
}
