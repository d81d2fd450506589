/** `DockerData`: the container id read from the lines of the cgroup file. A line
    such as `4:cpu:/docker/<64 hex digits>` qualifies when its middle field lists
    the `cpu` controller; its id is taken from the third field by a regular
    expression and then validated. */
module DockerData {
  import opened Wrappers
  import opened Text

  /** The controller a qualifying line must list. */
  const Cpu: string := "cpu"

  /** The number of hex digits of a full container id. */
  const IdLength: nat := 64

  /* ---------------------------------------------------------------------- */
  /* Validation                                                              */
  /* ---------------------------------------------------------------------- */

  /** `^[0-9a-f]{64}$`: exactly 64 lower-case hex digits. */
  predicate ValidContainerId(v: string) {
    |v| == IdLength && AllLowerHex(v)
  }

  /** `isInvalidDockerValue`: null, or not exactly 64 lower-case hex digits. */
  function IsInvalidDockerValue(value: Option<string>): (r: bool)
    ensures value.None? ==> r
    ensures value.Some? ==> (r <==> |value.value| != IdLength || exists i :: 0 <= i < |value.value| && !IsLowerHex(value.value[i]))
  {
    match value
    case None => true
    case Some(v) => !ValidContainerId(v)
  }

  /* ---------------------------------------------------------------------- */
  /* The cpu controller list                                                 */
  /* ---------------------------------------------------------------------- */

  /** `validCpuLine`: one of the comma-separated items is exactly `cpu`. */
  predicate ValidCpuLine(segment: string) {
    Cpu in JavaSplit(segment, ',')
  }

  /** A field qualifies exactly when one of its comma-separated items, empty ones
      included, is `cpu`: dropping trailing empty items makes no difference. */
  lemma ValidCpuLineItems(segment: string)
    ensures ValidCpuLine(segment) <==> exists i :: 0 <= i < |SplitOn(segment, ',')| && SplitOn(segment, ',')[i] == Cpu
  {
    JavaSplitMembership(segment, ',', Cpu);
  }

  /** `cpu` must be a whole item: `cpuacct` alone does not qualify, `cpu,cpuacct`
      and `cpuacct,cpu` do. */
  lemma ValidCpuLineExamples()
    ensures ValidCpuLine("cpu")
    ensures !ValidCpuLine("cpuacct")
    ensures ValidCpuLine("cpu,cpuacct")
    ensures ValidCpuLine("cpuacct,cpu")
  {
    assert ',' !in "cpu";
    assert ',' !in "cpuacct";
    JavaSplitOfShape(',', ["cpu", "cpuacct"], 0);
    assert Join(["cpu", "cpuacct"], [',']) + Repeat(',', 0) == "cpu,cpuacct";
    JavaSplitOfShape(',', ["cpuacct", "cpu"], 0);
    assert Join(["cpuacct", "cpu"], [',']) + Repeat(',', 0) == "cpuacct,cpu";
  }

  /* ---------------------------------------------------------------------- */
  /* The container-string pattern                                            */
  /* ---------------------------------------------------------------------- */

  /** The characters Java's `.` does not match: the line terminators. */
  predicate IsLineTerminator(ch: char) {
    ch == '\n' || ch == '\r' || ch == '\U{0085}' || ch == '\U{2028}' || ch == '\U{2029}'
  }

  predicate NoTerminator(s: string) {
    forall i :: 0 <= i < |s| ==> !IsLineTerminator(s[i])
  }

  predicate NoLowerHex(s: string) {
    forall i :: 0 <= i < |s| ==> !IsLowerHex(s[i])
  }

  /** One way `^.*[^0-9a-f]+([0-9a-f]{64,}).*` matches all of `s`: the leading `.*`
      takes `s[..a]`, `[^0-9a-f]+` the next `k` characters, the group the next `m`,
      and the trailing `.*` the rest. */
  predicate PatternSplit(s: string, a: int, k: int, m: int) {
    && 0 <= a && 1 <= k && IdLength <= m && a + k + m <= |s|
    && NoTerminator(s[..a])
    && NoLowerHex(s[a..a + k])
    && AllLowerHex(s[a + k..a + k + m])
    && NoTerminator(s[a + k + m..])
  }

  /** The order in which a backtracking matcher tries the greedy quantifiers: the
      longest leading `.*` first, then the longest `[^0-9a-f]+`, then the longest group.
      `(a, k, m)` is tried no later than `(a', k', m')`. */
  predicate TriedFirst(a: int, k: int, m: int, a': int, k': int, m': int) {
    a > a' || (a == a' && (k > k' || (k == k' && m >= m')))
  }

  /** The split the matcher settles on: the first one it tries that succeeds. */
  ghost predicate GreedySplit(s: string, a: int, k: int, m: int) {
    && PatternSplit(s, a, k, m)
    && forall a', k', m' :: PatternSplit(s, a', k', m') ==> TriedFirst(a, k, m, a', k', m')
  }

  /** The length of the run of hex (`hex`) or non-hex (`!hex`) characters at `i`. */
  function RunLength(s: string, i: int, hex: bool): (n: nat)
    requires 0 <= i <= |s|
    ensures i + n <= |s|
    ensures forall j :: i <= j < i + n ==> IsLowerHex(s[j]) == hex
    ensures i + n == |s| || IsLowerHex(s[i + n]) != hex
    decreases |s| - i
  {
    if i == |s| || IsLowerHex(s[i]) != hex then 0 else 1 + RunLength(s, i + 1, hex)
  }

  /** The match attempt whose leading `.*` stops at `a`: the longest non-hex run,
      then the longest hex run, then the rest. */
  function TryAt(s: string, a: int): Option<(nat, nat)>
    requires 0 <= a <= |s|
  {
    var k := RunLength(s, a, false);
    var m := RunLength(s, a + k, true);
    if k >= 1 && m >= IdLength && NoTerminator(s[a + k + m..]) then Some((k, m)) else None
  }

  /** A successful attempt is a split of the pattern. */
  lemma {:induction false} TryAtSound(s: string, a: int)
    requires 0 <= a <= |s| && NoTerminator(s[..a]) && TryAt(s, a).Some?
    ensures PatternSplit(s, a, TryAt(s, a).value.0, TryAt(s, a).value.1)
  {
    var k := RunLength(s, a, false);
    var m := RunLength(s, a + k, true);
    assert NoLowerHex(s[a..a + k]);
    assert AllLowerHex(s[a + k..a + k + m]);
  }

  /** Every split starting at `a` has the attempt's non-hex run and no longer a group;
      so the attempt succeeds and is tried no later. */
  lemma {:induction false} TryAtComplete(s: string, a: int, k: int, m: int)
    requires PatternSplit(s, a, k, m)
    ensures TryAt(s, a).Some?
    ensures TryAt(s, a).value.0 == k && TryAt(s, a).value.1 >= m
  {
    SplitRuns(s, a, k, m);
    var m0 := RunLength(s, a + k, true);
    assert s[a + k + m0..] == s[a + k + m..][m0 - m..];
    NoTerminatorSuffix(s[a + k + m..], m0 - m);
  }

  /** A split's non-hex stretch is the whole non-hex run, and its group lies within
      the hex run after it. */
  lemma {:induction false} SplitRuns(s: string, a: int, k: int, m: int)
    requires PatternSplit(s, a, k, m)
    ensures RunLength(s, a, false) == k && RunLength(s, a + k, true) >= m
  {
    assert s[a + k] == s[a + k..a + k + m][0];
    NonHexRunIs(s, a, k);
    HexRunCovers(s, a + k, m);
  }

  lemma {:induction false} NoTerminatorSuffix(x: string, n: int)
    requires NoTerminator(x) && 0 <= n <= |x|
    ensures NoTerminator(x[n..])
  {
    forall j | 0 <= j < |x[n..]|
      ensures !IsLineTerminator(x[n..][j])
    {
      assert x[n..][j] == x[n + j];
    }
  }

  /** A non-hex stretch ended by a hex digit is exactly the non-hex run. */
  lemma {:induction false} NonHexRunIs(s: string, a: int, k: int)
    requires 0 <= a && 0 <= k && a + k < |s|
    requires NoLowerHex(s[a..a + k]) && IsLowerHex(s[a + k])
    ensures RunLength(s, a, false) == k
    decreases k
  {
    if k > 0 {
      assert s[a] == s[a..a + k][0];
      assert s[a + 1..a + k] == s[a..a + k][1..];
      NonHexRunIs(s, a + 1, k - 1);
    }
  }

  /** A hex stretch lies within the hex run that starts with it. */
  lemma {:induction false} HexRunCovers(s: string, i: int, m: int)
    requires 0 <= i && 0 <= m && i + m <= |s|
    requires AllLowerHex(s[i..i + m])
    ensures RunLength(s, i, true) >= m
    decreases m
  {
    if m > 0 {
      assert s[i] == s[i..i + m][0];
      assert s[i + 1..i + m] == s[i..i + m][1..];
      HexRunCovers(s, i + 1, m - 1);
    }
  }

  /** The backtracking search over the length of the leading `.*`, longest first. */
  function Search(s: string, a: int): (r: Option<(nat, nat, nat)>)
    requires 0 <= a <= |s|
    ensures r.Some? ==> r.value.0 <= a && PatternSplit(s, r.value.0, r.value.1, r.value.2)
    ensures r.Some? ==> forall a', k', m' :: a' <= a && PatternSplit(s, a', k', m') ==>
      TriedFirst(r.value.0, r.value.1, r.value.2, a', k', m')
    ensures r.None? ==> forall a', k', m' :: a' <= a ==> !PatternSplit(s, a', k', m')
    decreases a
  {
    if NoTerminator(s[..a]) && TryAt(s, a).Some? then
      TryAtSound(s, a);
      TryAtAnswersForA(s, a);
      Some((a, TryAt(s, a).value.0, TryAt(s, a).value.1))
    else
      NoSplitAt(s, a);
      if a == 0 then None else Search(s, a - 1)
  }

  lemma TryAtAnswersForA(s: string, a: int)
    requires 0 <= a <= |s| && TryAt(s, a).Some?
    ensures forall k', m' :: PatternSplit(s, a, k', m') ==> TryAt(s, a).value.0 == k' && TryAt(s, a).value.1 >= m'
  {
    forall k', m' | PatternSplit(s, a, k', m')
      ensures TryAt(s, a).value.0 == k' && TryAt(s, a).value.1 >= m'
    {
      TryAtComplete(s, a, k', m');
    }
  }

  lemma NoSplitAt(s: string, a: int)
    requires 0 <= a <= |s| && !(NoTerminator(s[..a]) && TryAt(s, a).Some?)
    ensures forall k', m' :: !PatternSplit(s, a, k', m')
  {
    forall k', m' | PatternSplit(s, a, k', m')
      ensures false
    {
      TryAtComplete(s, a, k', m');
    }
  }

  /** `checkAndGetMatch(DOCKER_CONTAINER_STRING, …)`: whether the pattern matches all
      of `segment`, and the group the matcher captures when it does. */
  function MatchContainerString(segment: string): (r: Option<string>)
    ensures r.Some? <==> exists a, k, m :: PatternSplit(segment, a, k, m)
    ensures r.Some? ==> exists a, k, m :: GreedySplit(segment, a, k, m) && r.value == segment[a + k..a + k + m]
  {
    var found := Search(segment, |segment|);
    if found.Some? then
      var (a, k, m) := found.value;
      assert GreedySplit(segment, a, k, m);
      Some(segment[a + k..a + k + m])
    else None
  }

  /** A hex run of at least 64 digits starting at `q`, right after a non-hex character. */
  predicate RunStartsAt(s: string, q: int) {
    1 <= q && q + IdLength <= |s| && !IsLowerHex(s[q - 1]) && AllLowerHex(s[q..q + IdLength])
  }

  /** On a field without line terminators, the pattern matches exactly when some run
      of 64 or more hex digits follows a non-hex character, and the captured id is
      the whole of the rightmost such run. */
  lemma {:induction false} MatchIsRightmostRun(s: string)
    requires NoTerminator(s)
    ensures MatchContainerString(s).Some? <==> exists q :: RunStartsAt(s, q)
    ensures MatchContainerString(s).Some? ==> exists p ::
      && RunStartsAt(s, p)
      && (forall q :: RunStartsAt(s, q) ==> q <= p)
      && MatchContainerString(s).value == s[p..p + RunLength(s, p, true)]
  {
    MatchIffRun(s);
    if MatchContainerString(s).Some? {
      RightmostRunCaptured(s);
    }
  }

  lemma {:induction false} MatchIffRun(s: string)
    requires NoTerminator(s)
    ensures MatchContainerString(s).Some? <==> exists q :: RunStartsAt(s, q)
  {
    if q :| RunStartsAt(s, q) {
      RunGivesSplit(s, q);
    }
    var r := MatchContainerString(s);
    if r.Some? {
      var a, k, m :| GreedySplit(s, a, k, m) && r.value == s[a + k..a + k + m];
      GreedySplitIsRightmostRun(s, a, k, m);
    }
  }

  lemma {:induction false} RightmostRunCaptured(s: string)
    requires NoTerminator(s) && MatchContainerString(s).Some?
    ensures exists p ::
      && RunStartsAt(s, p)
      && (forall q :: RunStartsAt(s, q) ==> q <= p)
      && MatchContainerString(s).value == s[p..p + RunLength(s, p, true)]
  {
    var r := MatchContainerString(s);
    var a, k, m :| GreedySplit(s, a, k, m) && r.value == s[a + k..a + k + m];
    GreedyGroupIsRun(s, a, k, m);
  }

  lemma {:induction false} GreedyGroupIsRun(s: string, a: int, k: int, m: int)
    requires NoTerminator(s) && GreedySplit(s, a, k, m)
    ensures 0 <= a + k <= a + k + m <= |s|
    ensures exists p ::
      && RunStartsAt(s, p)
      && (forall q :: RunStartsAt(s, q) ==> q <= p)
      && s[a + k..a + k + m] == s[p..p + RunLength(s, p, true)]
  {
    GreedySplitIsRightmostRun(s, a, k, m);
    var p := a + k;
    assert RunStartsAt(s, p);
  }

  /** A run of 64 hex digits after a non-hex character is a split of its own. */
  lemma {:induction false} RunGivesSplit(s: string, q: int)
    requires NoTerminator(s) && RunStartsAt(s, q)
    ensures PatternSplit(s, q - 1, 1, IdLength)
  {
    assert s[q - 1..q] == [s[q - 1]];
  }

  /** The greedy split captures the whole of the rightmost qualifying run. */
  lemma {:induction false} GreedySplitIsRightmostRun(s: string, a: int, k: int, m: int)
    requires NoTerminator(s) && GreedySplit(s, a, k, m)
    ensures RunStartsAt(s, a + k)
    ensures forall q :: RunStartsAt(s, q) ==> q <= a + k
    ensures m == RunLength(s, a + k, true)
  {
    var p := a + k;
    assert s[p - 1] == s[a..a + k][k - 1];
    assert s[p..p + IdLength] == s[p..p + m][..IdLength];
    forall q | RunStartsAt(s, q)
      ensures q <= p
    {
      RunGivesSplit(s, q);
    }
    TryAtComplete(s, a, k, m);
    TryAtSound(s, a);
  }

  /** A third field of `/` never yields an id; nor does any field too short to hold one. */
  lemma ShortFieldNeverMatches(segment: string)
    requires |segment| <= IdLength
    ensures MatchContainerString(segment).None?
    ensures MatchContainerString("/").None?
  {
  }

  /** The container id of the sample cgroup line `4:cpu:/docker/<id>`, written in four
      pieces of sixteen digits. */
  const SampleId: string := "3ccfa00432798ff3" + "8f85839de1e396f7" + "71b4acbe9f4ddea0" + "a761c39b9790a782"

  /** The sample line yields its container id, which passes validation. */
  lemma SampleLineYieldsId()
    ensures CheckLine("4:cpu:/docker/" + SampleId) == Some(SampleId)
    ensures ValidContainerId(Trim(SampleId))
  {
    SampleLineChecks();
    SampleIdIsHex();
    HexIdValidation(SampleId);
  }

  lemma SampleLineChecks()
    ensures CheckLine("4:cpu:/docker/" + SampleId) == Some(SampleId)
  {
    SampleLineSplits();
    ValidCpuLineExamples();
    SampleFieldMatches();
  }

  lemma SampleIdIsHex()
    ensures AllLowerHex(SampleId) && |SampleId| == IdLength
  {
    var a, b, c, d := "3ccfa00432798ff3", "8f85839de1e396f7", "71b4acbe9f4ddea0", "a761c39b9790a782";
    assert AllLowerHex(a) && AllLowerHex(b) && AllLowerHex(c) && AllLowerHex(d);
  }

  lemma SampleLineSplits()
    ensures JavaSplit("4:cpu:/docker/" + SampleId, ':') == ["4", "cpu", "/docker/" + SampleId]
  {
    SampleFieldHasNoColon();
    JavaSplitOfShape(':', ["4", "cpu", "/docker/" + SampleId], 0);
    SampleLineJoin();
  }

  lemma SampleFieldHasNoColon()
    ensures ':' !in "/docker/" + SampleId
  {
    var field := "/docker/" + SampleId;
    SampleIdIsHex();
    assert forall i :: 8 <= i < |field| ==> field[i] == SampleId[i - 8];
  }

  lemma SampleLineJoin()
    ensures Join(["4", "cpu", "/docker/" + SampleId], [':']) + Repeat(':', 0) == "4:cpu:/docker/" + SampleId
  {
    var field := "/docker/" + SampleId;
    var fields := ["4", "cpu", field];
    assert fields[1..] == ["cpu", field] && fields[1..][1..] == [field];
    assert Join([field], [':']) == field;
    assert Join(["cpu", field], [':']) == "cpu" + [':'] + field;
    assert Join(fields, [':']) == "4" + [':'] + ("cpu" + [':'] + field);
  }

  lemma SampleFieldMatches()
    ensures MatchContainerString("/docker/" + SampleId) == Some(SampleId)
  {
    var field := "/docker/" + SampleId;
    SampleFieldRuns();
    HexRunCovers(field, 8, IdLength);
    MatchIsRightmostRun(field);
    var p :| && RunStartsAt(field, p)
             && (forall q :: RunStartsAt(field, q) ==> q <= p)
             && MatchContainerString(field).value == field[p..p + RunLength(field, p, true)];
    assert p == 8;
    assert RunLength(field, 8, true) == IdLength;
    assert field[8..8 + IdLength] == SampleId;
  }

  /** The sample field holds no line terminator, and its only qualifying run starts
      right after `/docker/`. */
  lemma SampleFieldRuns()
    ensures NoTerminator("/docker/" + SampleId)
    ensures RunStartsAt("/docker/" + SampleId, 8)
    ensures forall q :: RunStartsAt("/docker/" + SampleId, q) ==> q <= 8
    ensures ("/docker/" + SampleId)[8..] == SampleId && |SampleId| == IdLength
  {
    var field := "/docker/" + SampleId;
    SampleIdIsHex();
    assert field[8..] == SampleId;
    assert forall i :: 8 <= i < |field| ==> field[i] == SampleId[i - 8];
    assert field[8..8 + IdLength] == SampleId;
  }

  /* ---------------------------------------------------------------------- */
  /* Lines and files                                                         */
  /* ---------------------------------------------------------------------- */

  /** `checkLineAndGetResult`: the id captured from a line of exactly three
      `:`-separated fields whose middle field lists `cpu`. */
  function CheckLine(line: string): (r: Option<string>)
    ensures r.Some? ==> |JavaSplit(line, ':')| == 3 && ValidCpuLine(JavaSplit(line, ':')[1])
    ensures r.Some? ==> AllLowerHex(r.value) && |r.value| >= IdLength
    ensures |JavaSplit(line, ':')| == 3 && ValidCpuLine(JavaSplit(line, ':')[1]) ==>
      r == MatchContainerString(JavaSplit(line, ':')[2])
  {
    var parts := JavaSplit(line, ':');
    if |parts| == 3 && ValidCpuLine(parts[1]) then
      var found := MatchContainerString(parts[2]);
      if found.Some? then
        GroupIsHex(parts[2]);
        found
      else None
    else None
  }

  lemma GroupIsHex(segment: string)
    requires MatchContainerString(segment).Some?
    ensures AllLowerHex(MatchContainerString(segment).value)
    ensures |MatchContainerString(segment).value| >= IdLength
  {
    var a, k, m :| GreedySplit(segment, a, k, m) && MatchContainerString(segment).value == segment[a + k..a + k + m];
  }

  /** The id of a matching line survives `trim` unchanged, and it passes validation
      exactly when it has 64 digits: a longer run is captured whole and then rejected. */
  lemma CapturedIdValidation(line: string)
    requires CheckLine(line).Some?
    ensures Trim(CheckLine(line).value) == CheckLine(line).value
    ensures !IsInvalidDockerValue(Some(Trim(CheckLine(line).value))) <==> |CheckLine(line).value| == IdLength
  {
    HexIdValidation(CheckLine(line).value);
  }

  lemma HexIdValidation(id: string)
    requires AllLowerHex(id)
    ensures Trim(id) == id
    ensures !IsInvalidDockerValue(Some(Trim(id))) <==> |id| == IdLength
  {
    HexIsTrimmed(id);
    HexIsValidByLength(id);
  }

  lemma HexIsTrimmed(id: string)
    requires AllLowerHex(id)
    ensures Trim(id) == id
  {
    forall i | 0 <= i < |id|
      ensures id[i] > ' '
    {
      assert IsLowerHex(id[i]);
    }
  }

  lemma HexIsValidByLength(id: string)
    requires AllLowerHex(id)
    ensures !IsInvalidDockerValue(Some(id)) <==> |id| == IdLength
  {
  }

  /** Line `i` is the first line that yields an id. */
  predicate FirstMatchAt(lines: seq<string>, i: int) {
    && 0 <= i < |lines|
    && CheckLine(lines[i]).Some?
    && forall j :: 0 <= j < i ==> CheckLine(lines[j]).None?
  }

  /** The trimmed value if it passes validation, else null: for a captured id,
      the id itself exactly when it has 64 digits. */
  function TrimAndValidate(id: string): (r: Option<string>)
    requires AllLowerHex(id)
    ensures r.Some? <==> |id| == IdLength
    ensures r.Some? ==> r.value == id && ValidContainerId(id)
  {
    HexIdValidation(id);
    var value := Trim(id);
    if IsInvalidDockerValue(Some(value)) then None else Some(value)
  }

  lemma FirstMatchIsUnique(lines: seq<string>, i: int)
    requires FirstMatchAt(lines, i)
    ensures forall j :: FirstMatchAt(lines, j) <==> j == i
  {
  }

  /** The index of the first line that yields an id, if any. */
  function FirstIndex(lines: seq<string>): (r: Option<nat>)
    ensures r.Some? ==> FirstMatchAt(lines, r.value)
    ensures r.None? <==> forall i :: 0 <= i < |lines| ==> CheckLine(lines[i]).None?
  {
    var checked := seq(|lines|, i requires 0 <= i < |lines| => CheckLine(lines[i]));
    var r := FirstSome(checked);
    assert forall i :: 0 <= i < |lines| ==> checked[i] == CheckLine(lines[i]);
    if r.Some? then
      assert forall j :: 0 <= j < r.value ==> checked[j].None?;
      r
    else r
  }

  /** The index of the first present value, if any. */
  function FirstSome<T>(xs: seq<Option<T>>): (r: Option<nat>)
    ensures r.Some? ==> r.value < |xs| && xs[r.value].Some? && forall j :: 0 <= j < r.value ==> xs[j].None?
    ensures r.None? <==> forall i :: 0 <= i < |xs| ==> xs[i].None?
    decreases |xs|
  {
    if |xs| == 0 then None
    else if xs[0].Some? then Some(0)
    else
      var rest := FirstSome(xs[1..]);
      assert forall i :: 1 <= i < |xs| ==> xs[1..][i - 1] == xs[i];
      if rest.None? then None else Some(rest.value + 1)
  }

  /** `readFile` over the lines of the file. Only the first line that yields an id
      counts: its id is returned if it has exactly 64 digits (trimming leaves a
      captured id as it is) and null is returned otherwise, without looking further.
      With no such line the result is null. */
  method ReadFile(lines: seq<string>) returns (r: Option<string>)
    ensures r.Some? ==> ValidContainerId(r.value)
    ensures FirstIndex(lines).None? ==> r.None?
    ensures FirstIndex(lines).Some? ==> (r.Some? <==> |CheckLine(lines[FirstIndex(lines).value]).value| == IdLength)
    ensures r.Some? ==> FirstIndex(lines).Some? && r.value == CheckLine(lines[FirstIndex(lines).value]).value
  {
    var i := 0;
    while i < |lines|
      invariant 0 <= i <= |lines|
      invariant forall j :: 0 <= j < i ==> CheckLine(lines[j]).None?
    {
      var found := CheckLine(lines[i]);
      if found.Some? {
        FirstMatchIsUnique(lines, i);
        return TrimAndValidate(found.value);
      }
      i := i + 1;
    }
    return None;
  }

  /** `getDockerContainerId`: off Linux there is no id; on Linux the id read from
      the cgroup file's lines, or none when the file cannot be read. */
  method GetDockerContainerId(isLinux: bool, cgroupLines: Option<seq<string>>) returns (r: Option<string>)
    ensures !isLinux ==> r.None?
    ensures cgroupLines.None? ==> r.None?
    ensures r.Some? ==> ValidContainerId(r.value)
    ensures r.Some? ==> exists i :: FirstMatchAt(cgroupLines.value, i) && r.value == CheckLine(cgroupLines.value[i]).value
    ensures isLinux && cgroupLines.Some? ==>
      (r.Some? <==> FirstIndex(cgroupLines.value).Some?
                    && |CheckLine(cgroupLines.value[FirstIndex(cgroupLines.value).value]).value| == IdLength)
  {
    if isLinux && cgroupLines.Some? {
      r := ReadFile(cgroupLines.value);
    } else {
      r := None;
    }
  }
}
