/** `OpenTelemetryTransaction`: legacy transaction calls translated onto the
    current span. The current span is an explicit parameter; `None` stands for
    "no recording span", on which a rename has no effect. */
module Transactions {
  import opened Wrappers
  import opened Text
  import opened Spans
  import Segments

  /** The category used when `setTransactionName` is given a null one. */
  const DefaultCategory: string := "Java"

  /** One name element with at most one leading `/` removed. */
  function StripLeadingSlash(s: string): (r: string)
    ensures if |s| > 0 && s[0] == '/' then [s[0]] + r == s else r == s
  {
    if |s| > 0 && s[0] == '/' then s[1..] else s
  }

  /** The non-null elements, in order. */
  function NonNull(xs: seq<Option<string>>): (r: seq<string>)
    ensures |r| <= |xs|
    ensures forall x :: x in r <==> Some(x) in xs
    decreases |xs|
  {
    if |xs| == 0 then []
    else if xs[0].None? then NonNull(xs[1..])
    else [xs[0].value] + NonNull(xs[1..])
  }

  function StripAll(xs: seq<string>): (r: seq<string>)
    ensures |r| == |xs|
    ensures forall i :: 0 <= i < |xs| ==> r[i] == StripLeadingSlash(xs[i])
  {
    seq(|xs|, i requires 0 <= i < |xs| => StripLeadingSlash(xs[i]))
  }

  /** The elements that make up a transaction name: the category (or the default
      one), then the parts; null elements dropped, one leading `/` stripped from each. */
  function NameElements(category: Option<string>, parts: seq<Option<string>>): seq<string> {
    StripAll(NonNull([Some(category.GetOr(DefaultCategory))] + parts))
  }

  /** The span name `setTransactionName` computes. */
  function TransactionName(category: Option<string>, parts: seq<Option<string>>): string {
    Join(NameElements(category, parts), "/")
  }

  /** `setTransactionName(priority, override, category, parts...)`: renames the
      current span and reports success. The priority and the override flag are ignored. */
  function SetTransactionName<Priority>(priority: Priority, override: bool, category: Option<string>,
                                        parts: seq<Option<string>>, current: Option<SpanData>)
    : (r: (bool, Option<SpanData>))
    ensures r.0
    ensures current.None? <==> r.1.None?
    ensures current.Some? && !current.value.ended ==>
      r.1.value.name == TransactionName(category, parts) && r.1.value.attrs == current.value.attrs && !r.1.value.ended
    ensures current.Some? && current.value.ended ==> r.1 == current
  {
    match current
    case None => (true, None)
    case Some(span) => (true, Some(UpdateName(span, TransactionName(category, parts))))
  }

  /** The outcome does not depend on the priority or the override flag. */
  lemma PriorityIsIgnored<Priority>(p1: Priority, o1: bool, p2: Priority, o2: bool,
                                     category: Option<string>, parts: seq<Option<string>>, current: Option<SpanData>)
    ensures SetTransactionName(p1, o1, category, parts, current) == SetTransactionName(p2, o2, category, parts, current)
  {
  }

  /* ---------------------------------------------------------------------- */
  /* Properties of the computed name                                         */
  /* ---------------------------------------------------------------------- */

  /** A null category is the same as the category "Java". */
  lemma NullCategoryIsJava(parts: seq<Option<string>>)
    ensures TransactionName(None, parts) == TransactionName(Some(DefaultCategory), parts)
  {
  }

  /** A null element anywhere among the parts leaves the name as it was. */
  lemma {:induction false} NullPartIsDropped(category: Option<string>, before: seq<Option<string>>, after: seq<Option<string>>)
    ensures TransactionName(category, before + [None] + after) == TransactionName(category, before + after)
  {
    var head := [Some(category.GetOr(DefaultCategory))];
    NonNullSkipsNone(head + before, after);
    assert head + (before + [None] + after) == (head + before) + [None] + after;
    assert head + (before + after) == (head + before) + after;
  }

  lemma {:induction false} NonNullSkipsNone(before: seq<Option<string>>, after: seq<Option<string>>)
    ensures NonNull(before + [None] + after) == NonNull(before + after)
    decreases |before|
  {
    if |before| == 0 {
      assert before + [None] + after == [None] + after;
      assert ([None] + after)[1..] == after;
      assert before + after == after;
    } else {
      NonNullSkipsNone(before[1..], after);
      assert (before + [None] + after)[1..] == before[1..] + [None] + after;
      assert (before + after)[1..] == before[1..] + after;
    }
  }

  /** Appending a non-null part appends `/` and the part, less one leading `/`. */
  lemma {:induction false} AppendPart(category: Option<string>, parts: seq<Option<string>>, p: string)
    ensures TransactionName(category, parts + [Some(p)]) == TransactionName(category, parts) + "/" + StripLeadingSlash(p)
  {
    var xs := [Some(category.GetOr(DefaultCategory))] + parts;
    assert [Some(category.GetOr(DefaultCategory))] + (parts + [Some(p)]) == xs + [Some(p)];
    NonNullAppend(xs, p);
    var kept := NonNull(xs);
    assert |kept| >= 1 by {
      assert Some(category.GetOr(DefaultCategory)) in xs;
      assert category.GetOr(DefaultCategory) in kept;
    }
    assert StripAll(kept + [p]) == StripAll(kept) + [StripLeadingSlash(p)];
    JoinAppend(StripAll(kept), StripLeadingSlash(p), "/");
  }

  lemma {:induction false} NonNullAppend(xs: seq<Option<string>>, p: string)
    ensures NonNull(xs + [Some(p)]) == NonNull(xs) + [p]
    decreases |xs|
  {
    if |xs| == 0 {
      assert NonNull([Some(p)]) == [p] + NonNull([]);
    } else {
      NonNullAppend(xs[1..], p);
      assert (xs + [Some(p)])[1..] == xs[1..] + [Some(p)];
      if xs[0].Some? {
        assert NonNull(xs + [Some(p)]) == [xs[0].value] + NonNull(xs[1..] + [Some(p)]);
      }
    }
  }

  /** When no element holds a `/` once its leading one is stripped, splitting the
      name at `/` gives back exactly the stripped non-null elements. */
  lemma {:induction false} NameSplitsIntoElements(category: Option<string>, parts: seq<Option<string>>)
    requires forall e :: e in NameElements(category, parts) ==> '/' !in e
    ensures SplitOn(TransactionName(category, parts), '/') == NameElements(category, parts)
  {
    var kept := NonNull([Some(category.GetOr(DefaultCategory))] + parts);
    assert category.GetOr(DefaultCategory) in kept;
    var elements := NameElements(category, parts);
    forall i | 0 <= i < |elements|
      ensures '/' !in elements[i]
    {
      assert elements[i] in elements;
    }
    SplitOnJoin(elements, '/');
  }

  /** With no parts the name is the category alone, less one leading `/`. */
  lemma CategoryOnly(category: Option<string>)
    ensures TransactionName(category, []) == StripLeadingSlash(category.GetOr(DefaultCategory))
  {
    var c := category.GetOr(DefaultCategory);
    assert [Some(c)] + [] == [Some(c)];
    assert NonNull([Some(c)]) == [c] + NonNull([]);
  }

  /** Sample names: a null category becomes "Java", a leading `/` on a part is
      dropped, and only one `/` is stripped per element. */
  lemma NamingExamples()
    ensures TransactionName(None, [Some("part1"), Some("part2")]) == "Java/part1/part2"
    ensures TransactionName(Some("category"), [Some("/part1"), Some("part2")]) == "category/part1/part2"
    ensures TransactionName(Some("category"), [Some("newName")]) == "category/newName"
    ensures TransactionName(Some("/a"), [None, Some("//b")]) == "a//b"
  {
    DefaultCategoryExample();
    LeadingSlashExample();
    CategoryAndNameExample();
    SingleStripExample();
  }

  lemma DefaultCategoryExample()
    ensures TransactionName(None, [Some("part1"), Some("part2")]) == "Java/part1/part2"
  {
    TwoPlainParts(None, "part1", "part2");
    DefaultCategoryText();
  }

  lemma DefaultCategoryText()
    ensures StripLeadingSlash("Java") + "/" + StripLeadingSlash("part1") + "/" + "part2" == "Java/part1/part2"
  {
    assert StripLeadingSlash("Java") == "Java";
    assert StripLeadingSlash("part1") == "part1";
  }

  lemma LeadingSlashExample()
    ensures TransactionName(Some("category"), [Some("/part1"), Some("part2")]) == "category/part1/part2"
  {
    TwoPlainParts(Some("category"), "/part1", "part2");
    LeadingSlashText();
  }

  lemma LeadingSlashText()
    ensures StripLeadingSlash("category") + "/" + StripLeadingSlash("/part1") + "/" + "part2" == "category/part1/part2"
  {
    assert StripLeadingSlash("category") == "category";
    assert StripLeadingSlash("/part1") == "part1";
  }

  /** The name built from a category and two non-null parts. */
  lemma {:induction false} TwoPlainParts(category: Option<string>, p1: string, p2: string)
    requires |p2| > 0 && p2[0] != '/'
    ensures TransactionName(category, [Some(p1), Some(p2)])
         == StripLeadingSlash(category.GetOr(DefaultCategory)) + "/" + StripLeadingSlash(p1) + "/" + p2
  {
    CategoryOnly(category);
    AppendPart(category, [], p1);
    assert [] + [Some(p1)] == [Some(p1)];
    AppendPart(category, [Some(p1)], p2);
    assert [Some(p1)] + [Some(p2)] == [Some(p1), Some(p2)];
  }

  lemma CategoryAndNameExample()
    ensures TransactionName(Some("category"), [Some("newName")]) == "category/newName"
  {
    CategoryOnly(Some("category"));
    assert StripLeadingSlash("category") == "category";
    AppendPart(Some("category"), [], "newName");
    assert [] + [Some("newName")] == [Some("newName")];
    assert StripLeadingSlash("newName") == "newName";
  }

  lemma SingleStripExample()
    ensures TransactionName(Some("/a"), [None, Some("//b")]) == "a//b"
  {
    NullThenPart(Some("/a"), "//b");
    assert StripLeadingSlash("/a") + "/" + StripLeadingSlash("//b") == "a//b" by {
      assert StripLeadingSlash("/a") == "a" && StripLeadingSlash("//b") == "/b";
    }
  }

  /** The name built from a category, a null part and a non-null part. */
  lemma NullThenPart(category: Option<string>, p: string)
    ensures TransactionName(category, [None, Some(p)])
         == StripLeadingSlash(category.GetOr(DefaultCategory)) + "/" + StripLeadingSlash(p)
  {
    NullPartIsDropped(category, [], [Some(p)]);
    assert [] + [None] + [Some(p)] == [None, Some(p)];
    assert [] + [Some(p)] == [Some(p)];
    CategoryOnly(category);
    AppendPart(category, [], p);
  }

  /* ---------------------------------------------------------------------- */
  /* Segments                                                                */
  /* ---------------------------------------------------------------------- */

  /** `startSegment(name)`. */
  function StartSegment(segmentName: string): (r: Segments.Segment)
    ensures r.span.name == segmentName && |r.span.attrs| == 0 && !r.span.ended
  {
    Segments.Start(segmentName)
  }

  /** `startSegment(category, name)`: the span is named `category/name`; a null
      category or name is written as "null", as `String.join` does. */
  function StartSegmentInCategory(category: Option<string>, segmentName: Option<string>): (r: Segments.Segment)
    ensures r.span.name == JavaString(category) + "/" + JavaString(segmentName)
    ensures |r.span.attrs| == 0 && !r.span.ended
  {
    var parts := [JavaString(category), JavaString(segmentName)];
    assert parts[1..] == [JavaString(segmentName)];
    assert Join(parts[1..], "/") == JavaString(segmentName);
    Segments.Start(Join(parts, "/"))
  }

  /* ---------------------------------------------------------------------- */
  /* Unsupported calls                                                       */
  /* ---------------------------------------------------------------------- */

  function IsTransactionNameSet(): bool { false }
  function MarkResponseSent(): bool { false }
  function IsWebTransaction(): bool { false }
  function GetRequestMetadata(): Option<string> { None }
  function GetResponseMetadata(): Option<string> { None }

  /** The unsupported calls answer with neutral values: false, or a null string. */
  lemma UnsupportedCallsAreNeutral()
    ensures !IsTransactionNameSet() && !MarkResponseSent() && !IsWebTransaction()
    ensures GetRequestMetadata().None? && GetResponseMetadata().None?
  {
  }
}
