/**
 * The in-memory part of the feedback store (`FeedbackManager` in
 * src/feedback/feedbackManager.ts): the history of feedback on delivered
 * suggestions, its newest-first listing, and the summary of negative
 * feedback that is put into the detection prompt.
 */
module Feedback {
  import opened Wrappers
  import opened Text
  import opened Seqs

  datatype Kind = Dismiss | Save

  /** A `FeedbackEntry`; `time` is its timestamp in milliseconds since the
      epoch, as `new Date(timestamp).getTime()` reads it. */
  datatype Entry = Entry(time: int, kind: Kind, reasons: Option<seq<Text>>, comment: Option<Text>, originalTopic: Text)

  type History = seq<Entry>

  /** `addFeedback`: the entry goes at the end of the history. */
  function AddFeedback(h: History, e: Entry): (r: History)
    ensures |r| == |h| + 1 && r[..|h|] == h && r[|h|] == e
  {
    h + [e]
  }

  // ---------------------------------------------------------------------
  // The newest-first listing

  /** No entry is older than one after it. */
  predicate NewestFirst(s: History) {
    forall i, j | 0 <= i < j < |s| :: s[i].time >= s[j].time
  }

  /** Puts `e` into a newest-first list after every entry at least as
      recent: the step of a stable sort by descending time. */
  function Insert(s: History, e: Entry): (r: History)
    ensures |r| == |s| + 1 && (r[0] == e || (|s| > 0 && r[0] == s[0]))
  {
    if |s| == 0 then [e]
    else if s[0].time >= e.time then [s[0]] + Insert(s[1..], e)
    else [e] + s
  }

  lemma {:induction false} InsertPermutes(s: History, e: Entry)
    ensures multiset(Insert(s, e)) == multiset(s) + multiset{e}
    decreases |s|
  {
    if |s| > 0 {
      assert s == [s[0]] + s[1..];
      if s[0].time >= e.time {
        InsertPermutes(s[1..], e);
      }
    }
  }

  lemma ConsNewestFirst(x: Entry, s: History)
    requires NewestFirst(s) && (|s| > 0 ==> x.time >= s[0].time)
    ensures NewestFirst([x] + s)
  {
    var r := [x] + s;
    forall i, j | 0 <= i < j < |r| ensures r[i].time >= r[j].time {
      if i == 0 {
        assert r[j] == s[j - 1];
      } else {
        assert r[i] == s[i - 1] && r[j] == s[j - 1];
      }
    }
  }

  lemma {:induction false} InsertNewestFirst(s: History, e: Entry)
    requires NewestFirst(s)
    ensures NewestFirst(Insert(s, e))
    decreases |s|
  {
    if |s| > 0 {
      var t := s[1..];
      assert NewestFirst(t) by {
        forall i, j | 0 <= i < j < |t| ensures t[i].time >= t[j].time {
          assert t[i] == s[i + 1] && t[j] == s[j + 1];
        }
      }
      if s[0].time >= e.time {
        InsertNewestFirst(t, e);
        ConsNewestFirst(s[0], Insert(t, e));
      } else {
        ConsNewestFirst(e, s);
      }
    }
  }

  /** The history sorted by the comparator `b.time - a.time`: newest first,
      entries with equal times in their original order. */
  function SortNewestFirst(h: History): (r: History)
    ensures |r| == |h| && NewestFirst(r)
  {
    if |h| == 0 then []
    else
      var sorted := SortNewestFirst(h[..|h| - 1]);
      InsertNewestFirst(sorted, Last(h));
      Insert(sorted, Last(h))
  }

  /** The sort only reorders the history. */
  lemma {:induction false} SortPermutes(h: History)
    ensures multiset(SortNewestFirst(h)) == multiset(h)
    decreases |h|
  {
    if |h| > 0 {
      var p := h[..|h| - 1];
      SortPermutes(p);
      InsertPermutes(SortNewestFirst(p), Last(h));
      SplitLast(h);
    }
  }

  /** The number of entries listed by `getRecentFeedback`: `slice(0, limit)`
      counts a negative limit from the end. */
  function SliceEnd(len: nat, limit: int): nat {
    if limit < 0 then (if len + limit < 0 then 0 else len + limit)
    else if limit < len then limit else len
  }

  const DefaultLimit: int := 20

  /** `getRecentFeedback(limit)`: sorts the stored history in place, newest
      first, and lists its first `limit` entries. The first component is
      the history as it is left afterwards. */
  function RecentFeedback(h: History, limit: int): (r: (History, History))
    ensures multiset(r.0) == multiset(h) && NewestFirst(r.0)
    ensures |r.1| <= |r.0| && r.1 == r.0[..|r.1|]
    ensures limit >= 0 ==> |r.1| == (if limit < |h| then limit else |h|)
    ensures limit < 0 ==> |r.1| == (if |h| + limit < 0 then 0 else |h| + limit)
  {
    var sorted := SortNewestFirst(h);
    SortPermutes(h);
    (sorted, sorted[..SliceEnd(|sorted|, limit)])
  }

  /** `getRecentFeedback()` without an argument lists at most twenty
      entries, and none left out is newer than one listed. */
  lemma RecentFeedbackDefault(h: History)
    ensures var r := RecentFeedback(h, DefaultLimit);
      |r.1| == (if |h| < 20 then |h| else 20) &&
      forall i, j | 0 <= i < |r.1| <= j < |r.0| :: r.0[j].time <= r.1[i].time
  {
  }

  /** The entries with timestamp `t`, in order. */
  function AtTime(s: History, t: int): History {
    if |s| == 0 then [] else (if s[0].time == t then [s[0]] else []) + AtTime(s[1..], t)
  }

  lemma {:induction false} AtTimeSnoc(s: History, x: Entry, t: int)
    ensures AtTime(s + [x], t) == AtTime(s, t) + (if x.time == t then [x] else [])
    decreases |s|
  {
    if |s| > 0 {
      assert (s + [x])[1..] == s[1..] + [x];
      AtTimeSnoc(s[1..], x, t);
    } else {
      assert s + [x] == [x];
    }
  }

  lemma {:induction false} AtTimeOlder(s: History, t: int)
    requires forall i | 0 <= i < |s| :: s[i].time < t
    ensures AtTime(s, t) == []
    decreases |s|
  {
    if |s| > 0 {
      AtTimeOlder(s[1..], t);
      assert AtTime(s, t) == [] + AtTime(s[1..], t);
    }
  }

  lemma {:induction false} InsertAtTime(s: History, e: Entry, t: int)
    requires NewestFirst(s)
    ensures AtTime(Insert(s, e), t) == AtTime(s, t) + (if e.time == t then [e] else [])
    decreases |s|
  {
    if |s| == 0 {
      AtTimeCons(e, [], t);
      assert [e] + [] == [e];
    } else if s[0].time >= e.time {
      NewestFirstTail(s);
      InsertAtTime(s[1..], e, t);
      InsertAtTimeKeep(s, e, t);
    } else {
      InsertAtTimeFront(s, e, t);
    }
  }

  lemma NewestFirstTail(s: History)
    requires NewestFirst(s) && |s| > 0
    ensures NewestFirst(s[1..])
  {
    var t := s[1..];
    forall i, j | 0 <= i < j < |t| ensures t[i].time >= t[j].time {
      assert t[i] == s[i + 1] && t[j] == s[j + 1];
    }
  }

  lemma InsertAtTimeKeep(s: History, e: Entry, t: int)
    requires |s| > 0 && s[0].time >= e.time
    requires AtTime(Insert(s[1..], e), t) == AtTime(s[1..], t) + (if e.time == t then [e] else [])
    ensures AtTime(Insert(s, e), t) == AtTime(s, t) + (if e.time == t then [e] else [])
  {
    var head := if s[0].time == t then [s[0]] else [];
    var tail := if e.time == t then [e] else [];
    assert Insert(s, e) == [s[0]] + Insert(s[1..], e);
    AtTimeCons(s[0], Insert(s[1..], e), t);
    assert s == [s[0]] + s[1..];
    AtTimeCons(s[0], s[1..], t);
    assert head + (AtTime(s[1..], t) + tail) == (head + AtTime(s[1..], t)) + tail;
  }

  lemma InsertAtTimeFront(s: History, e: Entry, t: int)
    requires |s| > 0 && s[0].time < e.time && NewestFirst(s)
    ensures AtTime(Insert(s, e), t) == AtTime(s, t) + (if e.time == t then [e] else [])
  {
    assert Insert(s, e) == [e] + s;
    AtTimeCons(e, s, t);
    if e.time == t {
      assert forall i | 0 <= i < |s| :: s[i].time < t by {
        forall i | 0 <= i < |s| ensures s[i].time < t {
          assert s[i].time <= s[0].time;
        }
      }
      AtTimeOlder(s, t);
    } else {
      assert AtTime(s, t) + [] == AtTime(s, t);
    }
  }

  lemma AtTimeCons(x: Entry, s: History, t: int)
    ensures AtTime([x] + s, t) == (if x.time == t then [x] else []) + AtTime(s, t)
  {
    assert ([x] + s)[1..] == s;
  }

  /** The sort is stable: the entries of each timestamp keep their order. */
  lemma {:induction false} SortStable(h: History, t: int)
    ensures AtTime(SortNewestFirst(h), t) == AtTime(h, t)
    decreases |h|
  {
    if |h| > 0 {
      var p := h[..|h| - 1];
      SortStable(p, t);
      InsertAtTime(SortNewestFirst(p), Last(h), t);
      SplitLast(h);
      AtTimeSnoc(p, Last(h), t);
    }
  }

  /** The listing and the history it leaves behind keep the relative order
      of entries with equal timestamps. */
  lemma RecentFeedbackStable(h: History, limit: int, t: int)
    ensures AtTime(RecentFeedback(h, limit).0, t) == AtTime(h, t)
  {
    SortStable(h, t);
  }

  // ---------------------------------------------------------------------
  // The negative-feedback summary

  predicate HasReasons(e: Entry) {
    e.reasons.Some? && |e.reasons.value| > 0
  }

  predicate HasComment(e: Entry) {
    e.comment.Some? && |e.comment.value| > 0
  }

  /** An entry the summary draws on: a dismissal with a reason or a
      comment (an empty list and an empty comment do not count). */
  predicate Negative(e: Entry) {
    e.kind == Dismiss && (HasReasons(e) || HasComment(e))
  }

  /** The reasons an entry gives, when it is one the summary draws on. */
  function Listed(e: Entry): seq<Text> {
    if Negative(e) then e.reasons.GetOr([]) else []
  }

  /** The entries the summary draws on, in history order. */
  function Negatives(h: History): (r: History)
    ensures forall i | 0 <= i < |r| :: Negative(r[i])
  {
    if |h| == 0 then []
    else Negatives(h[..|h| - 1]) + (if Negative(Last(h)) then [Last(h)] else [])
  }

  /** All reasons of the entries, in order, repeats included. */
  function Reasons(h: History): seq<Text> {
    if |h| == 0 then [] else Reasons(h[..|h| - 1]) + Last(h).reasons.GetOr([])
  }

  /** The entries with a non-empty comment, in order. */
  function Commented(h: History): (r: History)
    ensures forall i | 0 <= i < |r| :: HasComment(r[i])
  {
    if |h| == 0 then []
    else Commented(h[..|h| - 1]) + (if HasComment(Last(h)) then [Last(h)] else [])
  }

  /** `slice(-n)`: the last `n` elements, or all when there are fewer. */
  function LastN<T>(s: seq<T>, n: nat): (r: seq<T>)
    ensures |r| <= n && |r| <= |s| && r == s[|s| - |r|..]
    ensures |r| == n || r == s
  {
    if |s| <= n then s else s[|s| - n..]
  }

  /** A line of the summary: a reason with the number of times it was
      given, or a recent comment on a topic. */
  datatype Line = Dislike(reason: Text, count: nat) | Remark(topic: Text, comment: Text)

  function RemarkOf(e: Entry): Line
    requires HasComment(e)
  {
    Remark(e.originalTopic, e.comment.value)
  }

  /** One line per distinct reason, in order of first mention, with its
      count: the `reasonCounts` map read back in insertion order. */
  function ReasonLines(rs: seq<Text>): seq<Line> {
    var d := Distinct(rs);
    seq(|d|, i requires 0 <= i < |d| => Dislike(d[i], Count(rs, d[i])))
  }

  /** The lines of the most recent comments, oldest first. */
  function RemarkLines(h: History): seq<Line> {
    var cs := LastN(Commented(h), 5);
    seq(|cs|, i requires 0 <= i < |cs| => RemarkOf(cs[i]))
  }

  /** `getNegativeFeedbackSummary`. */
  function NegativeSummary(h: History): seq<Line> {
    var ns := Negatives(h);
    ReasonLines(Reasons(ns)) + RemarkLines(ns)
  }

  /** How often the entries the summary draws on give reason `x`. */
  function Mentions(h: History, x: Text): nat {
    if |h| == 0 then 0 else Mentions(h[..|h| - 1], x) + Count(Listed(Last(h)), x)
  }

  /** The dismissals that carry a comment. */
  function CommentedDismissals(h: History): (r: History)
    ensures forall i | 0 <= i < |r| :: r[i].kind == Dismiss && HasComment(r[i])
  {
    if |h| == 0 then []
    else
      var e := Last(h);
      CommentedDismissals(h[..|h| - 1]) + (if e.kind == Dismiss && HasComment(e) then [e] else [])
  }

  lemma NegativesSnoc(h: History, e: Entry)
    ensures Negatives(h + [e]) == Negatives(h) + (if Negative(e) then [e] else [])
  {
    assert (h + [e])[..|h|] == h;
  }

  lemma ReasonsSnoc(h: History, e: Entry)
    ensures Reasons(h + [e]) == Reasons(h) + e.reasons.GetOr([])
  {
    assert (h + [e])[..|h|] == h;
  }

  lemma CommentedSnoc(h: History, e: Entry)
    ensures Commented(h + [e]) == Commented(h) + (if HasComment(e) then [e] else [])
  {
    assert (h + [e])[..|h|] == h;
  }

  lemma {:induction false} CountReasons(h: History, x: Text)
    ensures Count(Reasons(Negatives(h)), x) == Mentions(h, x)
    decreases |h|
  {
    if |h| > 0 {
      var p, e := h[..|h| - 1], Last(h);
      CountReasons(p, x);
      SplitLast(h);
      NegativesSnoc(p, e);
      if Negative(e) {
        ReasonsSnoc(Negatives(p), e);
        CountAppend(Reasons(Negatives(p)), e.reasons.GetOr([]), x);
      } else {
        assert Negatives(p) + [] == Negatives(p);
      }
    }
  }

  lemma {:induction false} CommentedNegatives(h: History)
    ensures Commented(Negatives(h)) == CommentedDismissals(h)
    decreases |h|
  {
    if |h| > 0 {
      var p, e := h[..|h| - 1], Last(h);
      CommentedNegatives(p);
      SplitLast(h);
      NegativesSnoc(p, e);
      if Negative(e) {
        CommentedSnoc(Negatives(p), e);
      } else {
        assert Negatives(p) + [] == Negatives(p);
        assert !(e.kind == Dismiss && HasComment(e));
        assert CommentedDismissals(h) == CommentedDismissals(p) + [];
      }
    }
  }

  /** Each reason line carries the count of its reason; only reasons that
      occur get a line. */
  lemma ReasonLinesCount(rs: seq<Text>, i: nat)
    requires i < |ReasonLines(rs)|
    ensures var d := Distinct(rs);
      ReasonLines(rs)[i] == Dislike(d[i], Count(rs, d[i])) && Count(rs, d[i]) > 0
  {
    CountPositive(rs, Distinct(rs)[i]);
  }

  /** Line `i` of the summary: a reason line for the `i`-th distinct
      reason with its total count, or a comment line after them. */
  lemma SummaryLine(h: History, i: nat)
    requires i < |NegativeSummary(h)|
    ensures var r, d := NegativeSummary(h), Distinct(Reasons(Negatives(h)));
      && (i < |d| ==> r[i] == Dislike(d[i], Mentions(h, d[i])) && Mentions(h, d[i]) > 0)
      && (i >= |d| ==> r[i].Remark?)
  {
    var ns := Negatives(h);
    var rs := Reasons(ns);
    var lines, remarks := ReasonLines(rs), RemarkLines(ns);
    assert NegativeSummary(h) == lines + remarks;
    if i < |lines| {
      ReasonLinesCount(rs, i);
      CountReasons(h, Distinct(rs)[i]);
    }
  }

  /** Each reason line carries the total count of its reason. */
  lemma SummaryCounts(h: History)
    ensures var r := NegativeSummary(h);
      forall i | 0 <= i < |r| && r[i].Dislike? :: r[i].count == Mentions(h, r[i].reason) > 0
  {
    forall i | 0 <= i < |NegativeSummary(h)| {
      SummaryLine(h, i);
    }
  }

  /** Every reason some contributing entry gives has its line. */
  lemma SummaryComplete(h: History)
    ensures var r := NegativeSummary(h);
      forall x | Mentions(h, x) > 0 :: exists i | 0 <= i < |r| :: r[i] == Dislike(x, Mentions(h, x))
  {
    var rs := Reasons(Negatives(h));
    var d := Distinct(rs);
    forall x | Mentions(h, x) > 0
      ensures exists i | 0 <= i < |NegativeSummary(h)| :: NegativeSummary(h)[i] == Dislike(x, Mentions(h, x))
    {
      CountReasons(h, x);
      CountPositive(rs, x);
      var i := FirstIndex(d, x);
      assert |ReasonLines(rs)| == |d|;
      SummaryLine(h, i);
    }
  }

  lemma SummaryPair(h: History, i: nat, j: nat)
    requires i < j < |NegativeSummary(h)| && NegativeSummary(h)[j].Dislike?
    ensures var r, rs := NegativeSummary(h), Reasons(Negatives(h));
      && r[i].Dislike? && r[i].reason != r[j].reason
      && FirstIndex(rs, r[i].reason) < FirstIndex(rs, r[j].reason)
  {
    var rs := Reasons(Negatives(h));
    DistinctFirstOrder(rs);
    SummaryLine(h, i);
    SummaryLine(h, j);
  }

  /** Reason lines precede comment lines, name no reason twice, and follow
      the order in which reasons are first mentioned. */
  lemma SummaryOrdered(h: History)
    ensures var r, rs := NegativeSummary(h), Reasons(Negatives(h));
      && (forall i, j | 0 <= i < j < |r| && r[j].Dislike? :: r[i].Dislike? && r[i].reason != r[j].reason)
      && (forall i, j | 0 <= i < j < |r| && r[j].Dislike? :: FirstIndex(rs, r[i].reason) < FirstIndex(rs, r[j].reason))
  {
    forall i, j | 0 <= i < j < |NegativeSummary(h)| && NegativeSummary(h)[j].Dislike?
      ensures var r, rs := NegativeSummary(h), Reasons(Negatives(h));
        && r[i].Dislike? && r[i].reason != r[j].reason
        && FirstIndex(rs, r[i].reason) < FirstIndex(rs, r[j].reason)
    {
      SummaryPair(h, i, j);
    }
  }

  /** `r` ends with one comment line per entry of `cs`, in order, and has
      only reason lines before them. */
  predicate EndsWithRemarks(r: seq<Line>, cs: History)
    requires forall m | 0 <= m < |cs| :: HasComment(cs[m])
  {
    && |cs| <= |r|
    && (forall i | 0 <= i < |r| - |cs| :: r[i].Dislike?)
    && (forall m | 0 <= m < |cs| :: r[|r| - |cs| + m] == RemarkOf(cs[m]))
  }

  /** `r` ends with one comment line for each of the last five entries of
      `c` (all of them when there are fewer), oldest first, and has only
      reason lines before them. */
  predicate EndsWithRecent(r: seq<Line>, c: History) {
    var k := if |c| < 5 then |c| else 5;
    && k <= |r|
    && (forall i | 0 <= i < |r| - k :: r[i].Dislike?)
    && (forall j | |c| - k <= j < |c| :: HasComment(c[j]) && r[|r| - |c| + j] == RemarkOf(c[j]))
  }

  lemma SummaryTail(h: History)
    ensures EndsWithRemarks(NegativeSummary(h), LastN(CommentedDismissals(h), 5))
  {
    var ns := Negatives(h);
    CommentedNegatives(h);
    var lines, remarks := ReasonLines(Reasons(ns)), RemarkLines(ns);
    assert NegativeSummary(h) == lines + remarks;
  }

  lemma RemarksIndexed(r: seq<Line>, c: History)
    requires forall j | 0 <= j < |c| :: HasComment(c[j])
    requires EndsWithRemarks(r, LastN(c, 5))
    ensures EndsWithRecent(r, c)
  {
    var cs := LastN(c, 5);
    forall j | |c| - |cs| <= j < |c|
      ensures HasComment(c[j]) && r[|r| - |c| + j] == RemarkOf(c[j])
    {
      var m := j - (|c| - |cs|);
      assert cs[m] == c[j];
      assert |r| - |cs| + m == |r| - |c| + j;
    }
  }

  /** The comment lines come after every reason line and are the last five
      commented dismissals (or all of them), oldest first. */
  lemma SummaryRemarks(h: History)
    ensures EndsWithRecent(NegativeSummary(h), CommentedDismissals(h))
  {
    SummaryTail(h);
    RemarksIndexed(NegativeSummary(h), CommentedDismissals(h));
  }

  /** Feedback that is not a dismissal with a reason or a comment leaves the
      summary as it was. */
  lemma SummaryIgnores(h: History, e: Entry)
    requires !Negative(e)
    ensures NegativeSummary(AddFeedback(h, e)) == NegativeSummary(h)
  {
    NegativesSnoc(h, e);
    assert Negatives(h) + [] == Negatives(h);
  }

  // ---------------------------------------------------------------------
  // The summary as text

  const DislikeHead: Text := Bmp("User dislikes: ")
  const FlaggedHead: Text := Bmp(" (flagged ")
  const TimesTail: Text := Bmp(" times)")
  const RemarkHead: Text := Bmp("User comment on \"")
  const RemarkMiddle: Text := Bmp("\": \"")

  /** The text of a summary line. */
  function RenderLine(l: Line): (r: Text)
    ensures l.Dislike? ==> OccursAt(r, DislikeHead, 0) && OccursAt(r, l.reason, |DislikeHead|)
    ensures l.Remark? ==> OccursAt(r, RemarkHead, 0) && OccursAt(r, l.topic, |RemarkHead|) && r[|r| - 1] == Quote
  {
    match l
    case Dislike(reason, count) => DislikeHead + reason + FlaggedHead + Decimal(count) + TimesTail
    case Remark(topic, comment) => RemarkHead + topic + RemarkMiddle + comment + [Quote]
  }

  /** The digits before ` times)` read back as the count. */
  lemma DislikeCount(reason: Text, count: nat)
    ensures var r, n := RenderLine(Dislike(reason, count)), |Decimal(count)|;
      && n + |TimesTail| <= |r|
      && (forall i | |r| - |TimesTail| - n <= i < |r| - |TimesTail| :: IsDigit(r[i]))
      && DecimalValue(r[|r| - |TimesTail| - n..|r| - |TimesTail|]) == count
  {
    var r := RenderLine(Dislike(reason, count));
    var digits := Decimal(count);
    var head := DislikeHead + reason + FlaggedHead;
    assert r == head + digits + TimesTail;
    assert r[|head|..|head| + |digits|] == digits;
    DecimalRoundTrip(count);
  }
}
