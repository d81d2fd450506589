/** The pieces of java.lang.String and commons-lang StringUtils behaviour the agent relies on. */
module Text {
  import opened Wrappers

  /* ---------------------------------------------------------------------- */
  /* Joining and splitting                                                   */
  /* ---------------------------------------------------------------------- */

  /** `String.join(sep, parts)`: the parts in order with `sep` between neighbours. */
  function Join(parts: seq<string>, sep: string): string
    decreases |parts|
  {
    if |parts| == 0 then ""
    else if |parts| == 1 then parts[0]
    else parts[0] + sep + Join(parts[1..], sep)
  }

  /** Java's `String.valueOf` for a possibly-null string, as `String.join` and `+` use it. */
  function JavaString(s: Option<string>): string {
    s.GetOr("null")
  }

  /** Every field of `s` between occurrences of `c`, empty fields included. */
  function SplitOn(s: string, c: char): (r: seq<string>)
    ensures |r| >= 1
    ensures forall i :: 0 <= i < |r| ==> c !in r[i]
    decreases |s|
  {
    if |s| == 0 then [""]
    else
      var rest := SplitOn(s[1..], c);
      if s[0] == c then [""] + rest
      else [[s[0]] + rest[0]] + rest[1..]
  }

  /** Joining the fields back with the delimiter gives the original string. */
  lemma {:induction false} JoinSplitOn(s: string, c: char)
    ensures Join(SplitOn(s, c), [c]) == s
    decreases |s|
  {
    if |s| > 0 {
      var rest := SplitOn(s[1..], c);
      JoinSplitOn(s[1..], c);
      if s[0] == c {
        assert SplitOn(s, c) == [""] + rest;
        assert ([""] + rest)[1..] == rest;
        assert s == [c] + s[1..];
      } else {
        var fields := [[s[0]] + rest[0]] + rest[1..];
        assert SplitOn(s, c) == fields;
        if |rest| == 1 {
          assert Join(rest, [c]) == rest[0];
        } else {
          assert fields[1..] == rest[1..];
          assert Join(rest, [c]) == rest[0] + [c] + Join(rest[1..], [c]);
        }
        assert s == [s[0]] + s[1..];
      }
    }
  }

  /** A string without the delimiter is a single field. */
  lemma {:induction false} SplitOnWithout(x: string, c: char)
    requires c !in x
    ensures SplitOn(x, c) == [x]
    decreases |x|
  {
    if |x| > 0 {
      SplitOnWithout(x[1..], c);
      assert x == [x[0]] + x[1..];
    }
  }

  /** A delimiter-free field followed by the delimiter splits off as the first field. */
  lemma {:induction false} SplitOnFirstField(x: string, c: char, rest: string)
    requires c !in x
    ensures SplitOn(x + [c] + rest, c) == [x] + SplitOn(rest, c)
    decreases |x|
  {
    var s := x + [c] + rest;
    if |x| == 0 {
      assert s[0] == c && s[1..] == rest;
    } else {
      assert s[1..] == x[1..] + [c] + rest;
      SplitOnFirstField(x[1..], c, rest);
      assert x == [x[0]] + x[1..];
    }
  }

  /** Splitting a join of delimiter-free fields gives the fields back. */
  lemma {:induction false} SplitOnJoin(xs: seq<string>, c: char)
    requires |xs| >= 1
    requires forall i :: 0 <= i < |xs| ==> c !in xs[i]
    ensures SplitOn(Join(xs, [c]), c) == xs
    decreases |xs|
  {
    if |xs| == 1 {
      SplitOnWithout(xs[0], c);
    } else {
      SplitOnJoin(xs[1..], c);
      SplitOnFirstField(xs[0], c, Join(xs[1..], [c]));
      assert xs == [xs[0]] + xs[1..];
    }
  }

  /** The list with every trailing empty string removed. */
  function DropTrailingEmpty(xs: seq<string>): (r: seq<string>)
    ensures |r| <= |xs| && r == xs[..|r|]
    ensures forall i :: |r| <= i < |xs| ==> xs[i] == ""
    ensures |r| == 0 || r[|r| - 1] != ""
    decreases |xs|
  {
    if |xs| > 0 && xs[|xs| - 1] == "" then DropTrailingEmpty(xs[..|xs| - 1]) else xs
  }

  /** `s.split(d)` for a one-character delimiter that is not a regular-expression
      metacharacter: `[s]` itself when `d` does not occur, otherwise every field
      with the trailing empty fields removed. */
  function JavaSplit(s: string, c: char): (r: seq<string>)
  {
    if c !in s then [s] else DropTrailingEmpty(SplitOn(s, c))
  }

  /** What `split` returns: a prefix of all fields, with only empty fields cut off,
      and no field holding the delimiter. */
  lemma {:induction false} JavaSplitFields(s: string, c: char)
    ensures |JavaSplit(s, c)| <= |SplitOn(s, c)|
    ensures JavaSplit(s, c) == SplitOn(s, c)[..|JavaSplit(s, c)|]
    ensures forall i :: |JavaSplit(s, c)| <= i < |SplitOn(s, c)| ==> SplitOn(s, c)[i] == ""
    ensures forall i :: 0 <= i < |JavaSplit(s, c)| ==> c !in JavaSplit(s, c)[i]
  {
    if c !in s {
      SplitOnWithout(s, c);
    }
  }

  /** Dropping trailing empty fields never changes which non-empty strings are fields. */
  lemma {:induction false} JavaSplitMembership(s: string, c: char, x: string)
    requires x != ""
    ensures x in JavaSplit(s, c) <==> x in SplitOn(s, c)
  {
    JavaSplitFields(s, c);
    var r, all := JavaSplit(s, c), SplitOn(s, c);
    if x in all {
      var i :| 0 <= i < |all| && all[i] == x;
      assert i < |r|;
      assert r[i] == x;
    }
  }

  /** `n` copies of `x`. */
  function Repeat<T>(x: T, n: nat): (r: seq<T>)
    ensures |r| == n && forall i :: 0 <= i < n ==> r[i] == x
  {
    seq(n, _ => x)
  }

  /** Joining extends by one element at the end. */
  lemma {:induction false} JoinAppend(xs: seq<string>, x: string, sep: string)
    requires |xs| >= 1
    ensures Join(xs + [x], sep) == Join(xs, sep) + sep + x
    decreases |xs|
  {
    if |xs| == 1 {
      assert Join(xs + [x], sep) == xs[0] + sep + Join([x], sep);
    } else {
      JoinAppend(xs[1..], x, sep);
      assert (xs + [x])[1..] == xs[1..] + [x];
    }
  }

  /** Trailing empty fields join to trailing delimiters. */
  lemma {:induction false} JoinTrailingEmpty(xs: seq<string>, c: char, t: nat)
    requires |xs| >= 1
    ensures Join(xs + Repeat("", t), [c]) == Join(xs, [c]) + Repeat(c, t)
    decreases t
  {
    if t > 0 {
      JoinTrailingEmpty(xs, c, t - 1);
      assert xs + Repeat("", t) == (xs + Repeat("", t - 1)) + [""];
      JoinAppend(xs + Repeat("", t - 1), "", [c]);
      assert Repeat(c, t) == Repeat(c, t - 1) + [c];
    } else {
      assert xs + Repeat("", t) == xs;
    }
  }

  /** Trailing delimiters split into trailing empty fields. */
  lemma {:induction false} SplitOnDelimiters(c: char, t: nat)
    ensures SplitOn(Repeat(c, t), c) == Repeat("", t + 1)
    decreases t
  {
    if t > 0 {
      SplitOnDelimiters(c, t - 1);
      assert Repeat(c, t)[1..] == Repeat(c, t - 1);
      assert Repeat("", t + 1) == [""] + Repeat("", t);
    }
  }

  /** Delimiter-free fields, joined and followed by more text after a delimiter,
      split into the fields and then the fields of that text. */
  lemma {:induction false} SplitOnJoinThen(xs: seq<string>, c: char, rest: string)
    requires |xs| >= 1
    requires forall i :: 0 <= i < |xs| ==> c !in xs[i]
    ensures SplitOn(Join(xs, [c]) + [c] + rest, c) == xs + SplitOn(rest, c)
    decreases |xs|
  {
    if |xs| == 1 {
      SplitOnFirstField(xs[0], c, rest);
    } else {
      var tail := Join(xs[1..], [c]) + [c] + rest;
      assert Join(xs, [c]) == xs[0] + [c] + Join(xs[1..], [c]);
      assert Join(xs, [c]) + [c] + rest == xs[0] + [c] + tail;
      SplitOnFirstField(xs[0], c, tail);
      SplitOnJoinThen(xs[1..], c, rest);
      assert SplitOn(tail, c) == xs[1..] + SplitOn(rest, c);
      assert xs == [xs[0]] + xs[1..];
      assert [xs[0]] + (xs[1..] + SplitOn(rest, c)) == xs + SplitOn(rest, c);
    }
  }

  /** Removing trailing empty fields after a non-empty last field. */
  lemma {:induction false} DropTrailingEmptyAfter(xs: seq<string>, t: nat)
    requires |xs| >= 1 && xs[|xs| - 1] != ""
    ensures DropTrailingEmpty(xs + Repeat("", t)) == xs
    decreases t
  {
    if t > 0 {
      var ys := xs + Repeat("", t);
      assert ys[..|ys| - 1] == xs + Repeat("", t - 1);
      DropTrailingEmptyAfter(xs, t - 1);
    } else {
      assert xs + Repeat("", t) == xs;
    }
  }

  /** Which strings `split` breaks into a given list of at least two fields: exactly
      the fields joined by the delimiter and followed by any number of further
      delimiters, provided no field holds the delimiter and the last is not empty. */
  lemma {:induction false} JavaSplitExactly(s: string, c: char, fields: seq<string>)
    requires |fields| >= 2
    ensures JavaSplit(s, c) == fields <==>
      && (forall i :: 0 <= i < |fields| ==> c !in fields[i])
      && fields[|fields| - 1] != ""
      && exists t: nat :: s == Join(fields, [c]) + Repeat(c, t)
  {
    if JavaSplit(s, c) == fields {
      JavaSplitShape(s, c, fields);
    }
    if (forall i :: 0 <= i < |fields| ==> c !in fields[i]) && fields[|fields| - 1] != ""
       && exists t: nat :: s == Join(fields, [c]) + Repeat(c, t) {
      var t: nat :| s == Join(fields, [c]) + Repeat(c, t);
      JavaSplitOfShape(c, fields, t);
    }
  }

  lemma {:induction false} JavaSplitShape(s: string, c: char, fields: seq<string>)
    requires |fields| >= 2 && JavaSplit(s, c) == fields
    ensures forall i :: 0 <= i < |fields| ==> c !in fields[i]
    ensures fields[|fields| - 1] != ""
    ensures s == Join(fields, [c]) + Repeat(c, |SplitOn(s, c)| - |fields|)
  {
    assert c in s;
    var all := SplitOn(s, c);
    assert fields == DropTrailingEmpty(all);
    JoinSplitOn(s, c);
    DroppedTailJoin(all, fields, c);
  }

  /** Joining a list is joining it without its trailing empty fields and then
      writing one delimiter per dropped field. */
  lemma {:induction false} DroppedTailJoin(all: seq<string>, fields: seq<string>, c: char)
    requires |fields| >= 1 && fields == DropTrailingEmpty(all)
    requires forall i :: 0 <= i < |all| ==> c !in all[i]
    ensures forall i :: 0 <= i < |fields| ==> c !in fields[i]
    ensures Join(all, [c]) == Join(fields, [c]) + Repeat(c, |all| - |fields|)
  {
    forall i | 0 <= i < |fields|
      ensures c !in fields[i]
    {
      assert fields[i] == all[i];
    }
    var t := |all| - |fields|;
    EmptyTailIsRepeat(all, |fields|);
    assert all == fields + Repeat("", t);
    JoinTrailingEmpty(fields, c, t);
  }

  /** A list whose fields from `n` on are all empty is its first `n` fields followed
      by that many empty strings. */
  lemma {:induction false} EmptyTailIsRepeat(xs: seq<string>, n: nat)
    requires n <= |xs|
    requires forall i :: n <= i < |xs| ==> xs[i] == ""
    ensures xs == xs[..n] + Repeat("", |xs| - n)
  {
    assert xs == xs[..n] + xs[n..];
    assert xs[n..] == Repeat("", |xs| - n);
  }

  lemma {:induction false} JavaSplitOfShape(c: char, fields: seq<string>, t: nat)
    requires |fields| >= 2
    requires forall i :: 0 <= i < |fields| ==> c !in fields[i]
    requires fields[|fields| - 1] != ""
    ensures JavaSplit(Join(fields, [c]) + Repeat(c, t), c) == fields
  {
    var s := Join(fields, [c]) + Repeat(c, t);
    assert Join(fields, [c]) == fields[0] + [c] + Join(fields[1..], [c]);
    assert s[|fields[0]|] == c;
    if t == 0 {
      assert s == Join(fields, [c]);
      SplitOnJoin(fields, c);
      DropTrailingEmptyAfter(fields, 0);
      assert fields + Repeat("", 0) == fields;
    } else {
      assert Repeat(c, t) == [c] + Repeat(c, t - 1);
      assert s == Join(fields, [c]) + [c] + Repeat(c, t - 1);
      SplitOnJoinThen(fields, c, Repeat(c, t - 1));
      SplitOnDelimiters(c, t - 1);
      DropTrailingEmptyAfter(fields, t);
    }
  }

  /* ---------------------------------------------------------------------- */
  /* Characters                                                              */
  /* ---------------------------------------------------------------------- */

  /** One of `[0-9a-f]`. */
  predicate IsLowerHex(ch: char) {
    '0' <= ch <= '9' || 'a' <= ch <= 'f'
  }

  /** Every character is one of `[0-9a-f]`. */
  predicate AllLowerHex(s: string) {
    forall i :: 0 <= i < |s| ==> IsLowerHex(s[i])
  }

  /** `Character.isWhitespace`: the space separators other than the no-break spaces,
      the line and paragraph separators, and the ASCII controls TAB to CR and FS to US. */
  predicate IsWhitespace(ch: char) {
    || '\t' <= ch <= '\r'
    || '\U{001C}' <= ch <= ' '
    || ch == '\U{1680}'
    || '\U{2000}' <= ch <= '\U{2006}'
    || '\U{2008}' <= ch <= '\U{200A}'
    || ch == '\U{2028}' || ch == '\U{2029}'
    || ch == '\U{205F}' || ch == '\U{3000}'
  }

  /** `StringUtils.isBlank`: null, empty, or whitespace only. */
  predicate IsBlank(s: Option<string>) {
    match s
    case None => true
    case Some(v) => forall i :: 0 <= i < |v| ==> IsWhitespace(v[i])
  }

  /* ---------------------------------------------------------------------- */
  /* Trimming                                                                */
  /* ---------------------------------------------------------------------- */

  /** `String.trim`: drop every leading and trailing character at or below U+0020. */
  function Trim(s: string): (r: string)
    ensures exists i :: TrimmedAt(s, i, r)
    ensures |r| == 0 || (r[0] > ' ' && r[|r| - 1] > ' ')
    ensures (forall i :: 0 <= i < |s| ==> s[i] > ' ') ==> r == s
  {
    var t := TrimStart(s);
    TrimBothEnds(s, t, TrimEnd(t));
    TrimEnd(t)
  }

  /** Every character of `x` is at or below U+0020. */
  predicate AtMostSpace(x: string) {
    forall j :: 0 <= j < |x| ==> x[j] <= ' '
  }

  /** `r` occurs in `s` starting at index `i`. */
  predicate SliceAt(s: string, i: int, r: string) {
    0 <= i && i + |r| <= |s| && s[i..i + |r|] == r
  }

  /** `r` is `s` with a prefix of length `i` and some suffix removed, every removed
      character being at or below U+0020. */
  predicate TrimmedAt(s: string, i: int, r: string) {
    SliceAt(s, i, r) && AtMostSpace(s[..i]) && AtMostSpace(s[i + |r|..])
  }

  lemma {:induction false} TrimBothEnds(s: string, t: string, r: string)
    requires |t| <= |s| && t == s[|s| - |t|..] && AtMostSpace(s[..|s| - |t|])
    requires |r| <= |t| && r == t[..|r|] && AtMostSpace(t[|r|..])
    ensures TrimmedAt(s, |s| - |t|, r)
  {
    var i := |s| - |t|;
    assert s[i..i + |r|] == t[..|r|];
    assert s[i + |r|..] == t[|r|..];
  }

  /** Only one string can be cut out of `s` by dropping characters at or below
      U+0020 from both ends until both ends are above U+0020: that is `Trim(s)`. */
  lemma {:induction false} TrimIsUnique(s: string, i: int, t: string)
    requires TrimmedAt(s, i, t)
    requires |t| == 0 || (t[0] > ' ' && t[|t| - 1] > ' ')
    ensures t == Trim(s)
  {
    var k := TrimIndex(s);
    TrimmedSlicesAgree(s, i, t, k, Trim(s));
  }

  /** Where the trimmed string starts. */
  lemma TrimIndex(s: string) returns (k: int)
    ensures TrimmedAt(s, k, Trim(s))
  {
    k := |s| - |TrimStart(s)|;
    TrimBothEnds(s, TrimStart(s), TrimEnd(TrimStart(s)));
  }

  lemma {:induction false} TrimmedSlicesAgree(s: string, i: int, t: string, k: int, r: string)
    requires TrimmedAt(s, i, t) && TrimmedAt(s, k, r)
    requires |t| == 0 || (t[0] > ' ' && t[|t| - 1] > ' ')
    requires |r| == 0 || (r[0] > ' ' && r[|r| - 1] > ' ')
    ensures t == r
  {
    TrimmedEnds(s, i, t, k, r);
    TrimmedEnds(s, k, r, i, t);
    assert |t| == |r|;
    if |t| > 0 {
      assert i == k;
      assert t == s[i..i + |t|];
    }
  }

  /** A non-empty trimmed slice whose ends are above U+0020 lies within every
      other trimmed slice of the same string. */
  lemma {:induction false} TrimmedEnds(s: string, i: int, t: string, k: int, r: string)
    requires TrimmedAt(s, i, t) && TrimmedAt(s, k, r)
    requires |t| == 0 || (t[0] > ' ' && t[|t| - 1] > ' ')
    ensures |t| > 0 ==> k <= i && i + |t| <= k + |r|
  {
    if |t| > 0 {
      assert s[i] == t[0];
      assert s[i + |t| - 1] == t[|t| - 1];
    }
  }

  function TrimStart(s: string): (r: string)
    ensures |r| <= |s| && r == s[|s| - |r|..]
    ensures |r| == 0 || r[0] > ' '
    ensures AtMostSpace(s[..|s| - |r|])
    ensures (|s| == 0 || s[0] > ' ') ==> r == s
    decreases |s|
  {
    if |s| > 0 && s[0] <= ' ' then
      var r := TrimStart(s[1..]);
      assert s[..|s| - |r|] == [s[0]] + s[1..][..|s| - 1 - |r|];
      r
    else s
  }

  function TrimEnd(s: string): (r: string)
    ensures |r| <= |s| && r == s[..|r|]
    ensures |r| == 0 || r[|r| - 1] > ' '
    ensures AtMostSpace(s[|r|..])
    ensures (|s| == 0 || s[|s| - 1] > ' ') ==> r == s
    decreases |s|
  {
    if |s| > 0 && s[|s| - 1] <= ' ' then
      var r := TrimEnd(s[..|s| - 1]);
      assert s[|r|..] == s[..|s| - 1][|r|..] + [s[|s| - 1]];
      r
    else s
  }

  /* ---------------------------------------------------------------------- */
  /* Case-insensitive search                                                 */
  /* ---------------------------------------------------------------------- */

  /** `Character.toUpperCase` on the letters whose upper case is ASCII: a-z, dotless
      i (U+0131) and long s (U+017F). Every other character maps to itself here. */
  function UpperCase(ch: char): char {
    if 'a' <= ch <= 'z' then (ch as int - 32) as char
    else if ch == '\U{0131}' then 'I'
    else if ch == '\U{017F}' then 'S'
    else ch
  }

  /** `Character.toLowerCase` on the letters whose lower case is ASCII: A-Z, dotted
      capital I (U+0130) and the Kelvin sign (U+212A). */
  function LowerCase(ch: char): char {
    if 'A' <= ch <= 'Z' then (ch as int + 32) as char
    else if ch == '\U{0130}' then 'i'
    else if ch == '\U{212A}' then 'k'
    else ch
  }

  /** The character comparison of `StringUtils.containsIgnoreCase`: equal, equal
      upper cases, or equal lower cases of the upper cases. */
  predicate CharEqualsIgnoreCase(a: char, b: char) {
    a == b || UpperCase(a) == UpperCase(b) || LowerCase(UpperCase(a)) == LowerCase(UpperCase(b))
  }

  /** `s` holds `t` at offset `i`, ignoring case. */
  predicate RegionMatchesIgnoreCase(s: string, i: int, t: string)
    requires 0 <= i <= |s| - |t|
  {
    forall j :: 0 <= j < |t| ==> CharEqualsIgnoreCase(s[i + j], t[j])
  }

  /** `StringUtils.containsIgnoreCase(s, t)` for non-null arguments. */
  predicate ContainsIgnoreCase(s: string, t: string) {
    exists i :: 0 <= i <= |s| - |t| && RegionMatchesIgnoreCase(s, i, t)
  }

  /** An exact occurrence is also a case-insensitive one. */
  lemma ContainsIgnoreCaseAt(s: string, t: string, i: int)
    requires 0 <= i <= |s| - |t| && s[i..i + |t|] == t
    ensures ContainsIgnoreCase(s, t)
  {
    forall j | 0 <= j < |t|
      ensures CharEqualsIgnoreCase(s[i + j], t[j])
    {
      assert s[i + j] == s[i..i + |t|][j];
    }
    assert RegionMatchesIgnoreCase(s, i, t);
  }
}
