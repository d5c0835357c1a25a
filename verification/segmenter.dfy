/**
 * Gap segmentation of a channel's filtered main messages
 * (src/buffer/messageBuffer.ts, the first half of `getConversationChunks`).
 *
 * The filtered sequence is cut into runs wherever one message follows the
 * previous one by more than the gap. Every run but the last is closed: it
 * becomes a chunk when it holds at least two messages. The last run is
 * closed only when the gap has also passed between its last message and
 * `now`; only then is the main buffer cleared.
 */
module Segmenter {
  import opened Text
  import opened Seqs
  import opened Messages

  /** Consecutive messages of `r` are at most `gapMs` apart. */
  predicate Close(r: seq<Message>, gapMs: int) {
    forall j | 0 < j < |r| :: r[j].timestamp - r[j - 1].timestamp <= gapMs
  }

  /** Every run is non-empty and close. */
  predicate AllClose(rs: seq<seq<Message>>, gapMs: int) {
    forall i | 0 <= i < |rs| :: |rs[i]| > 0 && Close(rs[i], gapMs)
  }

  /** Run `i` starts more than `gapMs` after run `i - 1` ends. */
  predicate GapBefore(rs: seq<seq<Message>>, i: int, gapMs: int)
    requires 0 < i < |rs|
  {
    |rs[i - 1]| > 0 && |rs[i]| > 0 && rs[i][0].timestamp - Last(rs[i - 1]).timestamp > gapMs
  }

  predicate AllGapped(rs: seq<seq<Message>>, gapMs: int) {
    forall i | 0 < i < |rs| :: GapBefore(rs, i, gapMs)
  }

  /** `rs` cuts `f` exactly where consecutive messages are more than `gapMs`
      apart: the runs concatenate to `f`, none is empty, each is close, and
      each boundary is a gap. */
  ghost predicate IsGapSplit(f: seq<Message>, rs: seq<seq<Message>>, gapMs: int) {
    Flatten(rs) == f && AllClose(rs, gapMs) && AllGapped(rs, gapMs)
  }

  /** The runs of `f`, built message by message as `getConversationChunks`'s
      loop over the main messages does. */
  function Runs(f: seq<Message>, gapMs: int): (rs: seq<seq<Message>>)
    ensures |rs| == 0 <==> |f| == 0
  {
    if |f| == 0 then []
    else if |f| == 1 then [[f[0]]]
    else
      var rs := Runs(f[..|f| - 1], gapMs);
      var m := f[|f| - 1];
      if m.timestamp - f[|f| - 2].timestamp > gapMs then rs + [[m]]
      else rs[..|rs| - 1] + [Last(rs) + [m]]
  }

  lemma FlattenLast(ss: seq<seq<Message>>)
    requires |ss| > 0 && |Last(ss)| > 0
    ensures |Flatten(ss)| > 0 && Last(Flatten(ss)) == Last(Last(ss))
  {
  }

  /** Extending the last run by one message keeps a split a split. */
  lemma ExtendLastRun(f: seq<Message>, rs: seq<seq<Message>>, m: Message, gapMs: int)
    requires |f| > 0 && IsGapSplit(f, rs, gapMs)
    requires m.timestamp - Last(f).timestamp <= gapMs
    ensures IsGapSplit(f + [m], rs[..|rs| - 1] + [Last(rs) + [m]], gapMs)
  {
    assert (f + [m])[..|f|] == f;
    FlattenNonEmpty(rs);
    var k := |rs| - 1;
    var l := Last(rs);
    var rs' := rs[..k] + [l + [m]];
    assert rs == rs[..k] + [l];
    FlattenSnoc(rs[..k], l);
    FlattenSnoc(rs[..k], l + [m]);
    FlattenLast(rs);
    assert Close(l + [m], gapMs) by {
      assert Close(l, gapMs);
      forall j | 0 < j < |l + [m]|
        ensures (l + [m])[j].timestamp - (l + [m])[j - 1].timestamp <= gapMs
      {
        if j < |l| {
          assert (l + [m])[j] == l[j] && (l + [m])[j - 1] == l[j - 1];
        }
      }
    }
    assert forall i | 0 <= i < k :: rs'[i] == rs[i];
    forall i | 0 < i < |rs'|
      ensures GapBefore(rs', i, gapMs)
    {
      assert GapBefore(rs, i, gapMs);
      assert rs'[i - 1] == rs[i - 1];
      assert rs'[i][0] == rs[i][0];
    }
  }

  /** Opening a new run after a gap keeps a split a split. */
  lemma OpenRun(f: seq<Message>, rs: seq<seq<Message>>, m: Message, gapMs: int)
    requires |f| > 0 && IsGapSplit(f, rs, gapMs)
    requires m.timestamp - Last(f).timestamp > gapMs
    ensures IsGapSplit(f + [m], rs + [[m]], gapMs)
  {
    FlattenSnoc(rs, [m]);
    FlattenNonEmpty(rs);
    FlattenLast(rs);
    var rs' := rs + [[m]];
    assert forall i | 0 <= i < |rs| :: rs'[i] == rs[i];
    forall i | 0 < i < |rs'|
      ensures GapBefore(rs', i, gapMs)
    {
      if i < |rs| {
        assert GapBefore(rs, i, gapMs);
      }
    }
  }

  /** The last message of `f` either opens a run or extends the last one. */
  lemma RunsLastStep(f: seq<Message>, gapMs: int)
    requires |f| >= 2
    ensures var rs := Runs(f[..|f| - 1], gapMs);
      Runs(f, gapMs) ==
        if Last(f).timestamp - f[|f| - 2].timestamp > gapMs then rs + [[Last(f)]]
        else rs[..|rs| - 1] + [Last(rs) + [Last(f)]]
  {
  }

  /** One more message keeps the runs a gap split. */
  lemma RunsStep(f: seq<Message>, gapMs: int)
    requires |f| >= 2 && IsGapSplit(f[..|f| - 1], Runs(f[..|f| - 1], gapMs), gapMs)
    ensures IsGapSplit(f, Runs(f, gapMs), gapMs)
  {
    var p := f[..|f| - 1];
    var rs := Runs(p, gapMs);
    assert p + [Last(f)] == f;
    assert Last(p) == f[|f| - 2];
    RunsLastStep(f, gapMs);
    if Last(f).timestamp - f[|f| - 2].timestamp > gapMs {
      OpenRun(p, rs, Last(f), gapMs);
    } else {
      ExtendLastRun(p, rs, Last(f), gapMs);
    }
  }

  lemma RunsSingle(f: seq<Message>, gapMs: int)
    requires |f| == 1
    ensures IsGapSplit(f, Runs(f, gapMs), gapMs)
  {
    FlattenSnoc([], [f[0]]);
    assert [] + [[f[0]]] == [[f[0]]];
  }

  /** The runs really are the gap split of `f`. */
  lemma {:induction false} RunsIsGapSplit(f: seq<Message>, gapMs: int)
    ensures IsGapSplit(f, Runs(f, gapMs), gapMs)
    decreases |f|
  {
    if |f| == 0 {
    } else if |f| == 1 {
      RunsSingle(f, gapMs);
    } else {
      RunsIsGapSplit(f[..|f| - 1], gapMs);
      RunsStep(f, gapMs);
    }
  }

  /** The runs concatenate to `f` and the last one is not empty. */
  lemma RunsCover(f: seq<Message>, gapMs: int)
    ensures Flatten(Runs(f, gapMs)) == f
    ensures |f| > 0 ==> |Last(Runs(f, gapMs))| > 0
  {
    RunsIsGapSplit(f, gapMs);
  }

  /** Dropping the last run of a split splits what remains. */
  lemma DropLastRun(f: seq<Message>, rs: seq<seq<Message>>, gapMs: int)
    requires |rs| > 0 && IsGapSplit(f, rs, gapMs)
    ensures |Last(rs)| <= |f|
    ensures IsGapSplit(f[..|f| - |Last(rs)|], rs[..|rs| - 1], gapMs)
  {
    var k := |rs| - 1;
    assert rs == rs[..k] + [Last(rs)];
    FlattenSnoc(rs[..k], Last(rs));
    assert forall i | 0 <= i < k :: rs[..k][i] == rs[i];
    forall i | 0 < i < k
      ensures GapBefore(rs[..k], i, gapMs)
    {
      assert GapBefore(rs, i, gapMs);
    }
  }

  lemma ClosePrefix(r: seq<Message>, n: nat, gapMs: int)
    requires n <= |r| && Close(r, gapMs)
    ensures Close(r[..n], gapMs)
  {
    forall j | 0 < j < n
      ensures r[..n][j].timestamp - r[..n][j - 1].timestamp <= gapMs
    {
      assert r[..n][j] == r[j] && r[..n][j - 1] == r[j - 1];
    }
  }

  /** Replacing the last run by a non-empty prefix of it keeps the runs
      close and the boundaries gaps. */
  lemma ReplaceLastRun(rs: seq<seq<Message>>, l': seq<Message>, gapMs: int)
    requires |rs| > 0 && AllClose(rs, gapMs) && AllGapped(rs, gapMs)
    requires 0 < |l'| <= |Last(rs)| && l' == Last(rs)[..|l'|]
    ensures AllClose(rs[..|rs| - 1] + [l'], gapMs) && AllGapped(rs[..|rs| - 1] + [l'], gapMs)
  {
    var k := |rs| - 1;
    var rs' := rs[..k] + [l'];
    ClosePrefix(Last(rs), |l'|, gapMs);
    assert forall i | 0 <= i < k :: rs'[i] == rs[i];
    forall i | 0 < i < |rs'|
      ensures GapBefore(rs', i, gapMs)
    {
      assert GapBefore(rs, i, gapMs);
      assert rs'[i - 1] == rs[i - 1];
      assert rs'[i][0] == rs[i][0];
    }
  }

  /** Dropping the last message of a last run that has several splits what
      remains. */
  lemma ShortenLastRun(f: seq<Message>, rs: seq<seq<Message>>, gapMs: int)
    requires |rs| > 0 && IsGapSplit(f, rs, gapMs) && |Last(rs)| >= 2
    ensures |f| >= 2 && Last(f) == Last(Last(rs)) && f[|f| - 2] == Last(rs)[|Last(rs)| - 2]
    ensures IsGapSplit(f[..|f| - 1], rs[..|rs| - 1] + [Last(rs)[..|Last(rs)| - 1]], gapMs)
  {
    var k := |rs| - 1;
    var l := Last(rs);
    var l' := l[..|l| - 1];
    assert rs == rs[..k] + [l];
    FlattenSnoc(rs[..k], l);
    FlattenSnoc(rs[..k], l');
    assert l == l' + [Last(l)];
    assert f == Flatten(rs[..k]) + l' + [Last(l)];
    ReplaceLastRun(rs, l', gapMs);
  }

  lemma UniqueEmpty(f: seq<Message>, rs: seq<seq<Message>>, gapMs: int)
    requires |f| == 0 && IsGapSplit(f, rs, gapMs)
    ensures rs == Runs(f, gapMs)
  {
    FlattenNonEmpty(rs);
  }

  /** A split whose last run is a single message agrees with `Runs` when its
      other runs do. */
  lemma UniqueNewRun(f: seq<Message>, rs: seq<seq<Message>>, gapMs: int)
    requires |f| > 0 && |rs| > 0 && IsGapSplit(f, rs, gapMs) && |Last(rs)| == 1
    requires rs[..|rs| - 1] == Runs(f[..|f| - 1], gapMs)
    ensures rs == Runs(f, gapMs)
  {
    var k := |rs| - 1;
    var l := Last(rs);
    assert rs == rs[..k] + [l];
    FlattenSnoc(rs[..k], l);
    assert Flatten(rs[..k]) == f[..|f| - 1];
    assert l == [f[|f| - 1]];
    if |f| == 1 {
      assert rs == [l];
    } else {
      assert GapBefore(rs, k, gapMs);
      FlattenLast(rs[..k]);
      assert rs[k - 1] == Last(rs[..k]);
    }
  }

  /** A split whose last run has several messages agrees with `Runs` when
      the split with that run shortened does. */
  lemma UniqueExtended(f: seq<Message>, rs: seq<seq<Message>>, gapMs: int)
    requires |rs| > 0 && IsGapSplit(f, rs, gapMs) && |Last(rs)| >= 2
    requires rs[..|rs| - 1] + [Last(rs)[..|Last(rs)| - 1]] == Runs(f[..|f| - 1], gapMs)
    ensures rs == Runs(f, gapMs)
  {
    ShortenLastRun(f, rs, gapMs);
    var k := |rs| - 1;
    var l := Last(rs);
    var rs' := rs[..k] + [l[..|l| - 1]];
    assert Close(l, gapMs);
    assert l[|l| - 1].timestamp - l[|l| - 2].timestamp <= gapMs;
    assert rs'[..k] == rs[..k];
    assert l[..|l| - 1] + [Last(f)] == l;
    assert rs == rs'[..k] + [Last(rs') + [Last(f)]];
  }

  /** The gap split is unique, so `Runs` is the only way to cut `f`. */
  lemma {:induction false} RunsUnique(f: seq<Message>, rs: seq<seq<Message>>, gapMs: int)
    requires IsGapSplit(f, rs, gapMs)
    ensures rs == Runs(f, gapMs)
    decreases |f|
  {
    if |f| == 0 {
      UniqueEmpty(f, rs, gapMs);
    } else {
      FlattenNonEmpty(rs);
      assert |rs| > 0;
      var k := |rs| - 1;
      if |Last(rs)| == 1 {
        DropLastRun(f, rs, gapMs);
        RunsUnique(f[..|f| - 1], rs[..k], gapMs);
        UniqueNewRun(f, rs, gapMs);
      } else {
        ShortenLastRun(f, rs, gapMs);
        RunsUnique(f[..|f| - 1], rs[..k] + [Last(rs)[..|Last(rs)| - 1]], gapMs);
        UniqueExtended(f, rs, gapMs);
      }
    }
  }

  /** The chunks made from the runs of `rs` that hold at least two messages. */
  function ClosedChunks(channelId: Text, rs: seq<seq<Message>>): (cs: seq<Chunk>)
    ensures |cs| <= |rs|
    ensures forall i | 0 <= i < |cs| ::
      |cs[i].messages| >= 2 && cs[i] == MakeChunk(channelId, cs[i].messages) && cs[i].messages in rs
  {
    if |rs| == 0 then []
    else
      ClosedChunks(channelId, rs[..|rs| - 1])
        + (if |Last(rs)| >= 2 then [MakeChunk(channelId, Last(rs))] else [])
  }

  /** What segmenting the main messages yields: the chunks, and whether the
      main buffer is cleared. */
  datatype MainOutcome = MainOutcome(chunks: seq<Chunk>, clears: bool)

  /** The final run is closed: it holds at least two messages and more than
      the gap has passed since its last one. */
  predicate FinalRunCloses(run: seq<Message>, gapMs: int, now: int) {
    |run| >= 2 && now - Last(run).timestamp > gapMs
  }

  /** Segmentation of the filtered main messages `f` of `channelId`. */
  function SegmentMain(channelId: Text, f: seq<Message>, gapMs: int, now: int): MainOutcome {
    if |f| < 2 then MainOutcome([], false)
    else
      var rs := Runs(f, gapMs);
      var closes := FinalRunCloses(Last(rs), gapMs, now);
      MainOutcome(
        ClosedChunks(channelId, rs[..|rs| - 1]) + (if closes then [MakeChunk(channelId, Last(rs))] else []),
        closes)
  }

  /** How the runs grow by one message, for runs kept as the closed ones
      followed by the current one. */
  lemma RunsSnoc(f: seq<Message>, i: nat, closed: seq<seq<Message>>, current: seq<Message>, gapMs: int)
    requires 1 <= i < |f| && closed + [current] == Runs(f[..i], gapMs)
    ensures f[i].timestamp - f[i - 1].timestamp > gapMs ==> Runs(f[..i + 1], gapMs) == closed + [current] + [[f[i]]]
    ensures f[i].timestamp - f[i - 1].timestamp <= gapMs ==> Runs(f[..i + 1], gapMs) == closed + [current + [f[i]]]
  {
    assert f[..i + 1][..i] == f[..i];
    assert (closed + [current])[..|closed|] == closed;
    RunsLastStep(f[..i + 1], gapMs);
  }

  lemma ClosedChunksSnoc(channelId: Text, rs: seq<seq<Message>>, r: seq<Message>)
    ensures ClosedChunks(channelId, rs + [r]) ==
      ClosedChunks(channelId, rs) + (if |r| >= 2 then [MakeChunk(channelId, r)] else [])
  {
    assert (rs + [r])[..|rs|] == rs;
  }

  /** `SegmentMain` in terms of the closed runs and the final one. */
  lemma SegmentMainSplit(channelId: Text, f: seq<Message>, closed: seq<seq<Message>>, current: seq<Message>, gapMs: int, now: int)
    requires |f| >= 2 && closed + [current] == Runs(f, gapMs)
    ensures var closes := FinalRunCloses(current, gapMs, now);
      SegmentMain(channelId, f, gapMs, now) ==
        MainOutcome(ClosedChunks(channelId, closed) + (if closes then [MakeChunk(channelId, current)] else []), closes)
  {
    var rs := Runs(f, gapMs);
    assert rs[..|rs| - 1] == closed && Last(rs) == current;
  }

  /** `getConversationChunks`'s loop over the main messages: one pass over
      `f` with a current run. */
  method SegmentMainLoop(channelId: Text, f: seq<Message>, gapMs: int, now: int) returns (chunks: seq<Chunk>, clears: bool)
    ensures MainOutcome(chunks, clears) == SegmentMain(channelId, f, gapMs, now)
  {
    chunks := [];
    clears := false;
    if |f| >= 2 {
      var current := [f[0]];
      ghost var closed: seq<seq<Message>> := [];
      var i := 1;
      assert f[..1] == [f[0]];
      while i < |f|
        invariant 1 <= i <= |f|
        invariant closed + [current] == Runs(f[..i], gapMs)
        invariant chunks == ClosedChunks(channelId, closed)
      {
        RunsSnoc(f, i, closed, current, gapMs);
        if f[i].timestamp - f[i - 1].timestamp > gapMs {
          ClosedChunksSnoc(channelId, closed, current);
          if |current| >= 2 {
            chunks := chunks + [MakeChunk(channelId, current)];
          }
          closed := closed + [current];
          current := [f[i]];
        } else {
          current := current + [f[i]];
        }
        i := i + 1;
      }
      assert f[..i] == f;
      SegmentMainSplit(channelId, f, closed, current, gapMs, now);
      if |current| >= 2 && now - current[|current| - 1].timestamp > gapMs {
        chunks := chunks + [MakeChunk(channelId, current)];
        clears := true;
      }
    }
  }

  /** Main is cleared exactly when the final run closes; its last message is
      the last filtered message. */
  lemma ClearsIff(channelId: Text, f: seq<Message>, gapMs: int, now: int)
    ensures SegmentMain(channelId, f, gapMs, now).clears <==>
      |f| >= 2 && |Last(Runs(f, gapMs))| >= 2 && now - Last(f).timestamp > gapMs
  {
    if |f| >= 2 {
      RunsIsGapSplit(f, gapMs);
      FlattenLast(Runs(f, gapMs));
    }
  }

  /** Every main chunk holds at least two messages of `f`, consecutive ones
      at most the gap apart, and takes its time range from its ends. */
  lemma MainChunksValid(channelId: Text, f: seq<Message>, gapMs: int, now: int)
    ensures forall c | c in SegmentMain(channelId, f, gapMs, now).chunks ::
      && |c.messages| >= 2
      && c == MakeChunk(channelId, c.messages)
      && Close(c.messages, gapMs)
      && forall m | m in c.messages :: m in f
  {
    if |f| >= 2 {
      var rs := Runs(f, gapMs);
      RunsIsGapSplit(f, gapMs);
      var cs := SegmentMain(channelId, f, gapMs, now).chunks;
      forall c | c in cs
        ensures Close(c.messages, gapMs) && forall m | m in c.messages :: m in f
      {
        var i :| 0 <= i < |rs| && c.messages == rs[i];
        forall m | m in c.messages
          ensures m in f
        {
          FlattenMember(rs, i, m);
        }
      }
    }
  }

  /** Keeps every message of a run with at least two messages. */
  function RunMask(rs: seq<seq<Message>>): (keep: seq<bool>)
    ensures |keep| == |Flatten(rs)|
  {
    if |rs| == 0 then []
    else RunMask(rs[..|rs| - 1]) + seq(|Last(rs)|, _ => |Last(rs)| >= 2)
  }

  /** The messages of the chunks made from `rs` are the messages of `rs`
      that `RunMask` keeps. */
  lemma {:induction false} ClosedChunksSelect(channelId: Text, rs: seq<seq<Message>>)
    ensures AllMessages(ClosedChunks(channelId, rs)) == Select(Flatten(rs), RunMask(rs))
    decreases |rs|
  {
    if |rs| > 0 {
      var p := rs[..|rs| - 1];
      var l := Last(rs);
      ClosedChunksSelect(channelId, p);
      assert rs == p + [l];
      FlattenSnoc(p, l);
      ClosedChunksSnoc(channelId, p, l);
      SelectAppend(Flatten(p), RunMask(p), l, seq(|l|, _ => |l| >= 2));
      SelectUniform(l, |l| >= 2);
      var tail := if |l| >= 2 then [MakeChunk(channelId, l)] else [];
      AllMessagesAppend(ClosedChunks(channelId, p), tail);
      assert AllMessages(tail) == if |l| >= 2 then l else [] by {
        if |l| >= 2 {
          assert tail[..0] == [];
        }
      }
    }
  }

  /** The messages of the closed runs followed, when it closes, by the final
      run `l` are a selection of the messages of all runs. */
  lemma FinalSelect(channelId: Text, p: seq<seq<Message>>, l: seq<Message>, closes: bool, tail: seq<Chunk>)
    requires |l| > 0 && tail == if closes then [MakeChunk(channelId, l)] else []
    ensures AllMessages(ClosedChunks(channelId, p) + tail)
      == Select(Flatten(p) + l, RunMask(p) + seq(|l|, _ => closes))
  {
    ClosedChunksSelect(channelId, p);
    SelectAppend(Flatten(p), RunMask(p), l, seq(|l|, _ => closes));
    SelectUniform(l, closes);
    AllMessagesAppend(ClosedChunks(channelId, p), tail);
    if closes {
      assert tail[..0] == [];
    }
  }

  /** Main chunks come out in the order of the filtered sequence: their
      messages, chunk after chunk, are a subsequence of `f`. */
  lemma MainChunksInOrder(channelId: Text, f: seq<Message>, gapMs: int, now: int)
    ensures IsSubsequence(AllMessages(SegmentMain(channelId, f, gapMs, now).chunks), f)
  {
    if |f| < 2 {
      SelectUniform(f, false);
      assert Select(f, seq(|f|, _ => false)) == [];
    } else {
      var rs := Runs(f, gapMs);
      RunsCover(f, gapMs);
      var p := rs[..|rs| - 1];
      var l := Last(rs);
      assert rs == p + [l];
      FlattenSnoc(p, l);
      var closes := FinalRunCloses(l, gapMs, now);
      var tail := if closes then [MakeChunk(channelId, l)] else [];
      FinalSelect(channelId, p, l, closes, tail);
      var keep := RunMask(p) + seq(|l|, _ => closes);
      assert Select(f, keep) == AllMessages(SegmentMain(channelId, f, gapMs, now).chunks);
    }
  }
}
