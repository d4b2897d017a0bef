/** Splitting and joining strings on a single separator character, as PHP's
    `explode` and `implode` do when the separator is one character long. */
module Text {

  /** `explode(sep, s)`: the pieces of `s` between occurrences of `sep`.
      There is always at least one piece; `explode(' ', "")` is `[""]`. */
  function Split(s: string, sep: char): (parts: seq<string>)
    ensures |parts| >= 1
  {
    if s == [] then [""]
    else
      var rest := Split(s[1..], sep);
      if s[0] == sep then [""] + rest
      else [[s[0]] + rest[0]] + rest[1..]
  }

  /** `implode(sep, parts)`: the pieces with one `sep` between neighbours. */
  function Join(parts: seq<string>, sep: char): string
  {
    if parts == [] then ""
    else if |parts| == 1 then parts[0]
    else parts[0] + [sep] + Join(parts[1..], sep)
  }

  /** No piece contains the separator. */
  predicate Separable(parts: seq<string>, sep: char)
  {
    forall k :: 0 <= k < |parts| ==> sep !in parts[k]
  }

  /** No piece of a split holds the separator. */
  lemma {:induction false} SplitSeparated(s: string, sep: char)
    ensures Separable(Split(s, sep), sep)
  {
    if s != [] {
      SplitSeparated(s[1..], sep);
      var rest := Split(s[1..], sep);
      if s[0] != sep {
        assert sep !in [s[0]] + rest[0];
      }
    }
  }

  /** Joining the pieces of a split gives the original string back. */
  lemma {:induction false} JoinSplit(s: string, sep: char)
    ensures Join(Split(s, sep), sep) == s
  {
    if s != [] {
      JoinSplit(s[1..], sep);
      if s[0] == sep {
        JoinSplitSep(s, Split(s[1..], sep), sep);
      } else {
        JoinSplitOther(s, Split(s[1..], sep), sep);
      }
    }
  }

  /** The inductive step of JoinSplit for a leading separator. */
  lemma JoinSplitSep(s: string, rest: seq<string>, sep: char)
    requires s != [] && s[0] == sep
    requires Split(s[1..], sep) == rest && Join(rest, sep) == s[1..]
    ensures Join(Split(s, sep), sep) == s
  {
    SplitConsSep(s, sep);
    JoinCons("", rest, sep);
    assert [sep] + s[1..] == s;
  }

  /** The inductive step of JoinSplit for a leading non-separator. */
  lemma JoinSplitOther(s: string, rest: seq<string>, sep: char)
    requires s != [] && s[0] != sep
    requires Split(s[1..], sep) == rest && Join(rest, sep) == s[1..]
    ensures Join(Split(s, sep), sep) == s
  {
    SplitConsOther(s, sep);
    JoinGlue(s[0], rest, sep);
    assert [s[0]] + s[1..] == s;
  }

  /** A piece in front of at least one more is followed by the separator. */
  lemma JoinCons(a: string, rest: seq<string>, sep: char)
    requires |rest| >= 1
    ensures Join([a] + rest, sep) == a + [sep] + Join(rest, sep)
  {
    assert ([a] + rest)[1..] == rest;
  }

  /** A character glued to the first piece comes first in the join. */
  lemma JoinGlue(c: char, rest: seq<string>, sep: char)
    requires |rest| >= 1
    ensures Join([[c] + rest[0]] + rest[1..], sep) == [c] + Join(rest, sep)
  {
    if |rest| > 1 {
      var tail := rest[1..];
      assert rest == [rest[0]] + tail;
      JoinCons([c] + rest[0], tail, sep);
      JoinCons(rest[0], tail, sep);
      assert [c] + rest[0] + [sep] + Join(tail, sep) == [c] + (rest[0] + [sep] + Join(tail, sep));
    }
  }

  /** Splitting `p + t` where `p` holds no separator glues `p` to the first piece of `t`. */
  lemma {:induction false} SplitPrefix(p: string, t: string, sep: char)
    requires sep !in p
    ensures Split(p + t, sep) == [p + Split(t, sep)[0]] + Split(t, sep)[1..]
  {
    var parts := Split(t, sep);
    if p != [] {
      var s := p + t;
      assert s[0] == p[0] && s[1..] == p[1..] + t;
      SplitPrefix(p[1..], t, sep);
      SplitPrefixStep(s, p, parts[0], parts[1..], sep);
    } else {
      assert p + t == t;
      assert p + parts[0] == parts[0];
      assert parts == [parts[0]] + parts[1..];
    }
  }

  /** The inductive step of SplitPrefix: s starts with the first character
      of p, and its rest splits with the rest of p glued to q. */
  lemma SplitPrefixStep(s: string, p: string, q: string, u: seq<string>, sep: char)
    requires s != [] && p != [] && s[0] == p[0] != sep
    requires Split(s[1..], sep) == [p[1..] + q] + u
    ensures Split(s, sep) == [p + q] + u
  {
    SplitConsOther(s, sep);
    assert [p[0]] + (p[1..] + q) == p + q;
  }

  /** Splitting `p + [sep] + t` where `p` holds no separator gives `p`, then the pieces of `t`. */
  lemma SplitAtSeparator(p: string, t: string, sep: char)
    requires sep !in p
    ensures Split(p + [sep] + t, sep) == [p] + Split(t, sep)
  {
    assert p + [sep] + t == p + ([sep] + t);
    SplitPrefix(p, [sep] + t, sep);
    assert ([sep] + t)[1..] == t;
    assert Split([sep] + t, sep) == [""] + Split(t, sep);
    assert p + "" == p;
  }

  /** Splitting a join of separator-free pieces gives the pieces back. */
  lemma {:induction false} SplitJoin(parts: seq<string>, sep: char)
    requires parts != []
    requires Separable(parts, sep)
    ensures Split(Join(parts, sep), sep) == parts
  {
    if |parts| == 1 {
      SplitPrefix(parts[0], "", sep);
      assert parts[0] + "" == parts[0];
    } else {
      SplitJoin(parts[1..], sep);
      SplitAtSeparator(parts[0], Join(parts[1..], sep), sep);
      assert parts == [parts[0]] + parts[1..];
    }
  }

  /** A character glued to the first piece of `r + t`, as Split does for a
      non-separator, only touches the pieces of `r`. */
  lemma GlueFirst(c: char, r: seq<string>, t: seq<string>)
    requires |r| >= 1
    ensures [[c] + (r + t)[0]] + (r + t)[1..] == ([[c] + r[0]] + r[1..]) + t
  {
    assert (r + t)[0] == r[0];
    assert (r + t)[1..] == r[1..] + t;
  }

  /** A leading separator ends an empty first piece. */
  lemma SplitConsSep(s: string, sep: char)
    requires s != [] && s[0] == sep
    ensures Split(s, sep) == [""] + Split(s[1..], sep)
  {
  }

  /** A leading non-separator starts the first piece. */
  lemma SplitConsOther(s: string, sep: char)
    requires s != [] && s[0] != sep
    ensures Split(s, sep) == [[s[0]] + Split(s[1..], sep)[0]] + Split(s[1..], sep)[1..]
  {
  }

  /** Concatenation of sequences is associative; used to regroup pieces. */
  lemma SeqAssoc<T>(a: seq<T>, b: seq<T>, c: seq<T>)
    ensures a + (b + c) == (a + b) + c
  {
  }

  /** A separator splits the string into the pieces on either side of it. */
  lemma {:induction false} SplitAround(x: string, y: string, sep: char)
    ensures Split(x + [sep] + y, sep) == Split(x, sep) + Split(y, sep)
    decreases |x|
  {
    var s := x + [sep] + y;
    if x == [] {
      assert s[0] == sep && s[1..] == y;
      SplitConsSep(s, sep);
    } else {
      assert s[0] == x[0] && s[1..] == x[1..] + [sep] + y;
      SplitAround(x[1..], y, sep);
      if x[0] == sep {
        SplitAroundSep(s, x, Split(x[1..], sep), Split(y, sep), sep);
      } else {
        SplitAroundOther(s, x, Split(x[1..], sep), Split(y, sep), sep);
      }
    }
  }

  /** The inductive step of SplitAround when x starts with the separator:
      s and x share their first character, and the rest of s splits into
      the pieces r of the rest of x followed by t. */
  lemma SplitAroundSep(s: string, x: string, r: seq<string>, t: seq<string>, sep: char)
    requires s != [] && x != [] && s[0] == x[0] == sep
    requires Split(s[1..], sep) == r + t && Split(x[1..], sep) == r
    ensures Split(s, sep) == Split(x, sep) + t
  {
    SplitConsSep(s, sep);
    SplitConsSep(x, sep);
    SeqAssoc([""], r, t);
  }

  /** The inductive step of SplitAround when x starts with another character. */
  lemma SplitAroundOther(s: string, x: string, r: seq<string>, t: seq<string>, sep: char)
    requires s != [] && x != [] && s[0] == x[0] != sep
    requires |r| >= 1
    requires Split(s[1..], sep) == r + t && Split(x[1..], sep) == r
    ensures Split(s, sep) == Split(x, sep) + t
  {
    SplitConsOther(s, sep);
    SplitConsOther(x, sep);
    GlueFirst(x[0], r, t);
  }

  /** A string without the separator is a single piece. */
  lemma SplitWhole(s: string, sep: char)
    requires sep !in s
    ensures Split(s, sep) == [s]
  {
    SplitPrefix(s, "", sep);
    assert s + "" == s;
  }
}
