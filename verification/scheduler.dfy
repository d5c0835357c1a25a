/**
 * Evaluation of the buffers (src/buffer/messageBuffer.ts): which channels
 * are due, how a channel's buffer becomes chunks, and the drain that
 * evaluates every due channel. `Date.now()` is the explicit `now`; one
 * drain reads one instant.
 */
module Scheduler {
  import opened Wrappers
  import opened Text
  import opened Seqs
  import opened Messages
  import opened Assoc
  import opened Privacy
  import opened Segmenter
  import opened BufferStore

  // ---------------------------------------------------------------------
  // The due rule

  /** A thread whose queue is non-empty and idle for at least the gap. */
  predicate ThreadIdle(t: Thread, gapMs: int, now: int) {
    |t.messages| != 0 && now - t.lastActivity >= gapMs
  }

  /** The thread scan, stopping at the first idle thread. */
  function AnyThreadIdle(threads: seq<(Text, Thread)>, gapMs: int, now: int): (r: bool)
    ensures r <==> exists j | 0 <= j < |threads| :: ThreadIdle(threads[j].1, gapMs, now)
  {
    if |threads| == 0 then false
    else if ThreadIdle(threads[0].1, gapMs, now) then true
    else AnyThreadIdle(threads[1..], gapMs, now)
  }

  /** The three checks of `getChannelsToEvaluate`, in order. */
  predicate IsDue(c: Channel, settings: Settings, now: int) {
    if c.messagesSinceLastEvaluation >= settings.evaluationThreshold then true
    else if |c.messages| > 0 && now - Last(c.messages).timestamp >= GapMs(settings) then true
    else AnyThreadIdle(c.threads, GapMs(settings), now)
  }

  /** A channel is due iff its counter reached the threshold, or main is
      non-empty and idle for at least the gap, or some non-empty thread is. */
  lemma IsDueIff(c: Channel, settings: Settings, now: int)
    ensures IsDue(c, settings, now) <==>
      || c.messagesSinceLastEvaluation >= settings.evaluationThreshold
      || (|c.messages| > 0 && now - c.messages[|c.messages| - 1].timestamp >= settings.conversationGapMinutes * 60000)
      || exists j | 0 <= j < |c.threads| ::
           |c.threads[j].1.messages| > 0 && now - c.threads[j].1.lastActivity >= settings.conversationGapMinutes * 60000
  {
    assert forall j | 0 <= j < |c.threads| ::
      ThreadIdle(c.threads[j].1, GapMs(settings), now) <==>
      |c.threads[j].1.messages| > 0 && now - c.threads[j].1.lastActivity >= settings.conversationGapMinutes * 60000;
  }

  /** `getChannelsToEvaluate`: the due channels, in store order. */
  function DueChannels(s: Store, settings: Settings, now: int): (r: seq<Text>)
    ensures forall k :: k in r <==> exists i | 0 <= i < |s| :: s[i].0 == k && IsDue(s[i].1, settings, now)
  {
    if |s| == 0 then []
    else
      var r := DueChannels(s[..|s| - 1], settings, now);
      assert forall i | 0 <= i < |s| - 1 :: s[..|s| - 1][i] == s[i];
      r + (if IsDue(Last(s).1, settings, now) then [Last(s).0] else [])
  }

  /** The due channels are listed once each and in the order of the store. */
  lemma DueChannelsOrder(s: Store, settings: Settings, now: int)
    requires UniqueKeys(s)
    ensures IsSubsequence(DueChannels(s, settings, now), Keys(s))
    ensures NoDuplicates(DueChannels(s, settings, now))
  {
    DueChannelsSubsequence(s, settings, now);
    DueChannelsDistinct(s, settings, now);
  }

  lemma {:induction false} DueChannelsSubsequence(s: Store, settings: Settings, now: int)
    ensures IsSubsequence(DueChannels(s, settings, now), Keys(s))
    decreases |s|
  {
    var r := DueChannels(s, settings, now);
    if |s| == 0 {
      assert Select(Keys(s), []) == r;
    } else {
      var p := s[..|s| - 1];
      DueChannelsSubsequence(p, settings, now);
      var keep :| |keep| == |Keys(p)| && Select(Keys(p), keep) == DueChannels(p, settings, now);
      var b := IsDue(Last(s).1, settings, now);
      assert Keys(s) == Keys(p) + [Last(s).0];
      SelectSnoc(Keys(p), keep, Last(s).0, b);
    }
  }

  lemma {:induction false} DueChannelsDistinct(s: Store, settings: Settings, now: int)
    requires UniqueKeys(s)
    ensures NoDuplicates(DueChannels(s, settings, now))
    decreases |s|
  {
    if |s| > 0 {
      var p := s[..|s| - 1];
      DueChannelsDistinct(p, settings, now);
      var rp := DueChannels(p, settings, now);
      if IsDue(Last(s).1, settings, now) {
        assert Last(s).0 !in rp;
        NoDuplicatesSnoc(rp, Last(s).0);
      }
    }
  }

  lemma NoDuplicatesSnoc<T>(xs: seq<T>, x: T)
    requires NoDuplicates(xs) && x !in xs
    ensures NoDuplicates(xs + [x])
  {
  }

  predicate NoDuplicates<T(==)>(xs: seq<T>) {
    forall i, j | 0 <= i < j < |xs| :: xs[i] != xs[j]
  }

  /** `shouldEvaluate`. */
  predicate ShouldEvaluate(s: Store, settings: Settings, now: int) {
    |DueChannels(s, settings, now)| > 0
  }

  lemma ShouldEvaluateIff(s: Store, settings: Settings, now: int)
    ensures ShouldEvaluate(s, settings, now) <==> exists i | 0 <= i < |s| :: IsDue(s[i].1, settings, now)
  {
    var r := DueChannels(s, settings, now);
    if i :| 0 <= i < |s| && IsDue(s[i].1, settings, now) {
      assert s[i].0 in r;
    }
    if |r| > 0 {
      assert r[0] in r;
    }
  }

  // ---------------------------------------------------------------------
  // Chunks of one channel

  /** A thread is closed: at least two of its messages pass the filter and
      more than the gap has passed since its last activity. */
  predicate ThreadCloses(t: Thread, policy: Policy, gapMs: int, now: int) {
    |Filter(policy, t.messages)| >= 2 && now - t.lastActivity > gapMs
  }

  /** A chunk as every evaluation emits it: at least two messages, none of
      them excluded, the time range taken from its ends. */
  predicate ValidChunk(policy: Policy, ch: Chunk) {
    && |ch.messages| >= 2
    && ch == MakeChunk(ch.channelId, ch.messages)
    && forall m | m in ch.messages :: !ShouldExclude(policy, m)
  }

  /** The thread pass of `getConversationChunks`: each closed thread, in
      map order, becomes one chunk of its filtered messages and is deleted;
      every other thread stays as it is. */
  function CloseThreads(channelId: Text, threads: seq<(Text, Thread)>, policy: Policy, gapMs: int, now: int)
    : (r: (seq<Chunk>, seq<(Text, Thread)>))
    ensures |r.0| + |r.1| == |threads|
  {
    if |threads| == 0 then ([], [])
    else
      var (cs, rest) := CloseThreads(channelId, threads[..|threads| - 1], policy, gapMs, now);
      var (k, t) := Last(threads);
      if ThreadCloses(t, policy, gapMs, now) then (cs + [MakeChunk(channelId, Filter(policy, t.messages))], rest)
      else (cs, rest + [(k, t)])
  }

  /** Marks the threads that stay open. */
  function OpenMask(threads: seq<(Text, Thread)>, policy: Policy, gapMs: int, now: int): (keep: seq<bool>)
    ensures |keep| == |threads|
  {
    seq(|threads|, j requires 0 <= j < |threads| => !ThreadCloses(threads[j].1, policy, gapMs, now))
  }

  /** The threads kept are exactly the ones that do not close, unchanged and
      in their order. */
  lemma {:induction false} CloseThreadsKeeps(channelId: Text, threads: seq<(Text, Thread)>, policy: Policy, gapMs: int, now: int)
    ensures CloseThreads(channelId, threads, policy, gapMs, now).1 == Select(threads, OpenMask(threads, policy, gapMs, now))
    decreases |threads|
  {
    if |threads| > 0 {
      var n := |threads| - 1;
      var p, last := threads[..n], threads[n];
      var mask := OpenMask(threads, policy, gapMs, now);
      CloseThreadsKeeps(channelId, p, policy, gapMs, now);
      KeptSnoc(channelId, threads, policy, gapMs, now);
      OpenMaskSnoc(threads, policy, gapMs, now);
      SelectSnoc(p, mask[..n], last, mask[n]);
      SplitLast(threads);
    }
  }

  /** How the kept threads grow by one thread. */
  lemma KeptSnoc(channelId: Text, threads: seq<(Text, Thread)>, policy: Policy, gapMs: int, now: int)
    requires |threads| > 0
    ensures var n := |threads| - 1;
      CloseThreads(channelId, threads, policy, gapMs, now).1
        == CloseThreads(channelId, threads[..n], policy, gapMs, now).1 + (if ThreadCloses(threads[n].1, policy, gapMs, now) then [] else [threads[n]])
  {
  }

  lemma OpenMaskSnoc(threads: seq<(Text, Thread)>, policy: Policy, gapMs: int, now: int)
    requires |threads| > 0
    ensures var n := |threads| - 1; var mask := OpenMask(threads, policy, gapMs, now);
      && mask[..n] == OpenMask(threads[..n], policy, gapMs, now)
      && mask == mask[..n] + [!ThreadCloses(threads[n].1, policy, gapMs, now)]
  {
    var n, mask := |threads| - 1, OpenMask(threads, policy, gapMs, now);
    forall j | 0 <= j < n
      ensures mask[..n][j] == OpenMask(threads[..n], policy, gapMs, now)[j]
    {
      assert threads[..n][j] == threads[j];
    }
    SplitLast(mask);
  }

  /** Marks the threads that close. */
  function CloseMask(threads: seq<(Text, Thread)>, policy: Policy, gapMs: int, now: int): (close: seq<bool>)
    ensures |close| == |threads|
  {
    seq(|threads|, j requires 0 <= j < |threads| => ThreadCloses(threads[j].1, policy, gapMs, now))
  }

  /** Every thread keeps a message through the filter. */
  predicate AllChunkable(policy: Policy, ts: seq<(Text, Thread)>) {
    forall j | 0 <= j < |ts| :: Chunkable(policy, ts[j].1)
  }

  /** The thread keeps a message through the filter. */
  predicate Chunkable(policy: Policy, t: Thread) {
    |Filter(policy, t.messages)| > 0
  }

  /** The chunk a closing thread yields: its messages the privacy rules keep. */
  function ThreadChunk(channelId: Text, policy: Policy, t: Thread): Chunk
    requires Chunkable(policy, t)
  {
    MakeChunk(channelId, Filter(policy, t.messages))
  }

  /** The chunk of each given thread, in order. */
  function ThreadChunks(channelId: Text, policy: Policy, ts: seq<(Text, Thread)>): (r: seq<Chunk>)
    requires AllChunkable(policy, ts)
    ensures |r| == |ts|
  {
    seq(|ts|, j requires 0 <= j < |ts| => ThreadChunk(channelId, policy, ts[j].1))
  }

  /** The chunks the thread pass should emit: one per closing thread, in
      map order. */
  function ClosingChunks(channelId: Text, threads: seq<(Text, Thread)>, policy: Policy, gapMs: int, now: int): seq<Chunk> {
    SelectedClose(threads, policy, gapMs, now);
    ThreadChunks(channelId, policy, Select(threads, CloseMask(threads, policy, gapMs, now)))
  }

  lemma ThreadChunksSnoc(channelId: Text, policy: Policy, ts: seq<(Text, Thread)>, extra: seq<(Text, Thread)>)
    requires |extra| <= 1
    requires AllChunkable(policy, ts) && AllChunkable(policy, extra)
    ensures ThreadChunks(channelId, policy, ts + extra) == ThreadChunks(channelId, policy, ts) + ThreadChunks(channelId, policy, extra)
  {
  }

  lemma CloseMaskSnoc(threads: seq<(Text, Thread)>, policy: Policy, gapMs: int, now: int)
    requires |threads| > 0
    ensures var n := |threads| - 1; var mask := CloseMask(threads, policy, gapMs, now);
      && mask[..n] == CloseMask(threads[..n], policy, gapMs, now)
      && mask == mask[..n] + [ThreadCloses(threads[n].1, policy, gapMs, now)]
  {
    var n, mask := |threads| - 1, CloseMask(threads, policy, gapMs, now);
    forall j | 0 <= j < n
      ensures mask[..n][j] == CloseMask(threads[..n], policy, gapMs, now)[j]
    {
      assert threads[..n][j] == threads[j];
    }
    SplitLast(mask);
  }

  /** The threads the mask selects all close, so each keeps messages. */
  lemma {:induction false} SelectedClose(threads: seq<(Text, Thread)>, policy: Policy, gapMs: int, now: int)
    ensures AllChunkable(policy, Select(threads, CloseMask(threads, policy, gapMs, now)))
    decreases |threads|
  {
    if |threads| > 0 {
      var n := |threads| - 1;
      var p, last := threads[..n], threads[n];
      var mask := CloseMask(threads, policy, gapMs, now);
      SelectedClose(p, policy, gapMs, now);
      CloseMaskSnoc(threads, policy, gapMs, now);
      var sp := Select(p, mask[..n]);
      assert Select(threads, mask) == sp + (if mask[n] then [last] else []);
      assert mask[n] ==> ThreadCloses(last.1, policy, gapMs, now);
    }
  }

  /** How the expected chunks grow by one thread. */
  lemma ClosingChunksSnoc(channelId: Text, threads: seq<(Text, Thread)>, policy: Policy, gapMs: int, now: int)
    requires |threads| > 0
    ensures var p, t := threads[..|threads| - 1], Last(threads).1;
      ClosingChunks(channelId, threads, policy, gapMs, now) ==
        ClosingChunks(channelId, p, policy, gapMs, now)
        + (if ThreadCloses(t, policy, gapMs, now) then [MakeChunk(channelId, Filter(policy, t.messages))] else [])
  {
    var p := threads[..|threads| - 1];
    var last := Last(threads);
    var mask := CloseMask(threads, policy, gapMs, now);
    CloseMaskSnoc(threads, policy, gapMs, now);
    var b := ThreadCloses(last.1, policy, gapMs, now);
    SplitLast(threads);
    SelectSnoc(p, mask[..|p|], last, b);
    SelectedClose(p, policy, gapMs, now);
    ThreadChunksSnoc(channelId, policy, Select(p, mask[..|p|]), if b then [last] else []);
  }

  /** The thread pass emits exactly the chunks of the closing threads, in
      order. */
  lemma {:induction false} CloseThreadsEmits(channelId: Text, threads: seq<(Text, Thread)>, policy: Policy, gapMs: int, now: int)
    ensures CloseThreads(channelId, threads, policy, gapMs, now).0 == ClosingChunks(channelId, threads, policy, gapMs, now)
    decreases |threads|
  {
    if |threads| > 0 {
      CloseThreadsEmits(channelId, threads[..|threads| - 1], policy, gapMs, now);
      ClosingChunksSnoc(channelId, threads, policy, gapMs, now);
    }
  }

  /** Each thread chunk is valid and made of its thread's filtered messages. */
  lemma {:induction false} CloseThreadsValid(channelId: Text, threads: seq<(Text, Thread)>, policy: Policy, gapMs: int, now: int)
    ensures forall ch | ch in CloseThreads(channelId, threads, policy, gapMs, now).0 ::
      ValidChunk(policy, ch) && ch.channelId == channelId
      && exists j | 0 <= j < |threads| :: ch.messages == Filter(policy, threads[j].1.messages)
    decreases |threads|
  {
    if |threads| > 0 {
      var p := threads[..|threads| - 1];
      CloseThreadsValid(channelId, p, policy, gapMs, now);
      assert forall j | 0 <= j < |p| :: p[j] == threads[j];
    }
  }

  /** The thread pass emits exactly the chunks of the closing threads, in
      order; each is valid and belongs to the channel. */
  lemma CloseThreadsChunks(channelId: Text, threads: seq<(Text, Thread)>, policy: Policy, gapMs: int, now: int)
    ensures CloseThreads(channelId, threads, policy, gapMs, now).0 == ClosingChunks(channelId, threads, policy, gapMs, now)
    ensures forall ch | ch in CloseThreads(channelId, threads, policy, gapMs, now).0 ::
      ValidChunk(policy, ch) && ch.channelId == channelId
      && exists j | 0 <= j < |threads| :: ch.messages == Filter(policy, threads[j].1.messages)
  {
    CloseThreadsEmits(channelId, threads, policy, gapMs, now);
    CloseThreadsValid(channelId, threads, policy, gapMs, now);
  }

  /** How the thread pass grows by one thread. */
  lemma CloseThreadsSnoc(channelId: Text, threads: seq<(Text, Thread)>, i: nat, policy: Policy, gapMs: int, now: int)
    requires i < |threads|
    ensures var r := CloseThreads(channelId, threads[..i], policy, gapMs, now);
      var t := threads[i].1;
      CloseThreads(channelId, threads[..i + 1], policy, gapMs, now) ==
        if ThreadCloses(t, policy, gapMs, now) then (r.0 + [MakeChunk(channelId, Filter(policy, t.messages))], r.1)
        else (r.0, r.1 + [threads[i]])
  {
    assert threads[..i + 1][..i] == threads[..i];
  }

  /** The threads kept so far have keys other than the next thread's. */
  lemma KeptAvoidsNext(channelId: Text, threads: seq<(Text, Thread)>, i: nat, policy: Policy, gapMs: int, now: int, kept: seq<(Text, Thread)>)
    requires UniqueKeys(threads) && i < |threads|
    requires kept == CloseThreads(channelId, threads[..i], policy, gapMs, now).1
    ensures forall j | 0 <= j < |kept| :: kept[j].0 != threads[i].0
  {
    var p := threads[..i];
    CloseThreadsKeeps(channelId, p, policy, gapMs, now);
    SelectPrefixAvoids(threads, i, OpenMask(p, policy, gapMs, now));
  }

  /** Deleting a closing thread from the partly walked map leaves the
      threads kept so far followed by the unvisited ones. */
  lemma CloseStep(channelId: Text, threads: seq<(Text, Thread)>, i: nat, policy: Policy, gapMs: int, now: int, kept: seq<(Text, Thread)>)
    requires UniqueKeys(threads) && i < |threads|
    requires kept == CloseThreads(channelId, threads[..i], policy, gapMs, now).1
    ensures Remove(kept + threads[i..], threads[i].0) == kept + threads[i + 1..]
  {
    KeptAvoidsNext(channelId, threads, i, policy, gapMs, now, kept);
    LaterKeysDiffer(threads, i);
    RemoveVisited(threads, i, kept);
  }

  /** `getConversationChunks`'s loop over the threads: walk the map,
      deleting closed threads as it goes. */
  method CloseThreadsLoop(channelId: Text, threads: seq<(Text, Thread)>, policy: Policy, gapMs: int, now: int)
    returns (chunks: seq<Chunk>, remaining: seq<(Text, Thread)>)
    requires UniqueKeys(threads)
    ensures (chunks, remaining) == CloseThreads(channelId, threads, policy, gapMs, now)
  {
    chunks := [];
    remaining := threads;
    ghost var kept: seq<(Text, Thread)> := [];
    var i := 0;
    while i < |threads|
      invariant i <= |threads|
      invariant chunks == CloseThreads(channelId, threads[..i], policy, gapMs, now).0
      invariant kept == CloseThreads(channelId, threads[..i], policy, gapMs, now).1
      invariant remaining == kept + threads[i..]
    {
      var (k, t) := threads[i];
      CloseThreadsSnoc(channelId, threads, i, policy, gapMs, now);
      if ThreadCloses(t, policy, gapMs, now) {
        chunks := chunks + [MakeChunk(channelId, Filter(policy, t.messages))];
        CloseStep(channelId, threads, i, policy, gapMs, now, kept);
        remaining := Remove(remaining, k);
      } else {
        ConsSlice(kept, threads, i);
        kept := kept + [threads[i]];
      }
      i := i + 1;
    }
    SliceAll(kept, threads);
  }

  /** The outcome of evaluating one channel: its chunks and the new store. */
  datatype Evaluation = Evaluation(chunks: seq<Chunk>, store: Store)

  /** The main pass of `getConversationChunks` on a channel's buffer. */
  function MainPass(channelId: Text, c: Channel, policy: Policy, settings: Settings, now: int): MainOutcome {
    SegmentMain(channelId, Filter(policy, c.messages), GapMs(settings), now)
  }

  /** The channel's buffer after `getConversationChunks`: main emptied when
      its final run closed, closed threads deleted. */
  function Evaluated(channelId: Text, c: Channel, policy: Policy, settings: Settings, now: int): (r: Channel)
    ensures r.messagesSinceLastEvaluation == c.messagesSinceLastEvaluation
    ensures r.lastEvaluationTime == c.lastEvaluationTime
  {
    var main := MainPass(channelId, c, policy, settings, now);
    c.(messages := if main.clears then [] else c.messages,
       threads := CloseThreads(channelId, c.threads, policy, GapMs(settings), now).1)
  }

  /** `getConversationChunks`: main chunks first, then thread chunks. */
  function ConversationChunks(s: Store, channelId: Text, policy: Policy, settings: Settings, now: int): Evaluation {
    var (c, s1) := GetBuffer(s, channelId, now);
    var main := MainPass(channelId, c, policy, settings, now);
    var threads := CloseThreads(channelId, c.threads, policy, GapMs(settings), now);
    Evaluation(main.chunks + threads.0, Put(s1, channelId, Evaluated(channelId, c, policy, settings, now)))
  }

  lemma ConversationChunksValid(s: Store, channelId: Text, policy: Policy, settings: Settings, now: int)
    ensures forall ch | ch in ConversationChunks(s, channelId, policy, settings, now).chunks ::
      ValidChunk(policy, ch) && ch.channelId == channelId
  {
    var c := GetBuffer(s, channelId, now).0;
    var f := Filter(policy, c.messages);
    MainChunksValid(channelId, f, GapMs(settings), now);
    CloseThreadsChunks(channelId, c.threads, policy, GapMs(settings), now);
  }

  /** Evaluating a channel changes only that channel: main is emptied exactly
      when the final run closes (excluded messages and earlier runs go with
      it), and otherwise stays as it was. */
  lemma ConversationChunksStore(s: Store, channelId: Text, policy: Policy, settings: Settings, now: int, k: Text)
    requires UniqueKeys(s)
    ensures var e := ConversationChunks(s, channelId, policy, settings, now);
      var c := ChannelOr(s, channelId, now);
      var f := Filter(policy, c.messages);
      && UniqueKeys(e.store)
      && Get(e.store, channelId) == Some(Evaluated(channelId, c, policy, settings, now))
      && (Get(e.store, channelId).value.messages == [] <==>
           c.messages == [] || (|f| >= 2 && |Last(Runs(f, GapMs(settings)))| >= 2 && now - Last(f).timestamp > GapMs(settings)))
      && (k != channelId ==> Get(e.store, k) == Get(s, k))
  {
    var (c, s1) := GetBuffer(s, channelId, now);
    var f := Filter(policy, c.messages);
    GetBufferOthers(s, channelId, now, k);
    var c' := Evaluated(channelId, c, policy, settings, now);
    PutGet(s1, channelId, c', k);
    PutGet(s1, channelId, c', channelId);
    ClearsIff(channelId, f, GapMs(settings), now);
  }

  /** When the final run does not close, main is left as it was, so the next
      evaluation of that channel yields the same main chunks again. */
  lemma MainChunksRepeat(s: Store, channelId: Text, policy: Policy, settings: Settings, now: int, later: int)
    requires UniqueKeys(s)
    requires !MainPass(channelId, ChannelOr(s, channelId, now), policy, settings, now).clears
    ensures var s' := ConversationChunks(s, channelId, policy, settings, now).store;
      Get(s', channelId).Some? &&
      MainPass(channelId, Get(s', channelId).value, policy, settings, later).chunks
        == MainPass(channelId, ChannelOr(s, channelId, now), policy, settings, later).chunks
  {
    ConversationChunksStore(s, channelId, policy, settings, now, channelId);
  }

  // ---------------------------------------------------------------------
  // The drain

  /** `markChannelEvaluated`. */
  function MarkEvaluated(s: Store, channelId: Text, now: int): Store {
    var (c, s1) := GetBuffer(s, channelId, now);
    Put(s1, channelId, c.(lastEvaluationTime := now, messagesSinceLastEvaluation := 0))
  }

  lemma MarkEvaluatedEffect(s: Store, channelId: Text, now: int, k: Text)
    requires UniqueKeys(s)
    ensures var s' := MarkEvaluated(s, channelId, now);
      && UniqueKeys(s')
      && Get(s', channelId).Some?
      && Get(s', channelId).value.messagesSinceLastEvaluation == 0
      && Get(s', channelId).value.lastEvaluationTime == now
      && (k != channelId ==> Get(s', k) == Get(s, k))
  {
    var (c, s1) := GetBuffer(s, channelId, now);
    var c' := c.(lastEvaluationTime := now, messagesSinceLastEvaluation := 0);
    GetBufferOthers(s, channelId, now, k);
    PutGet(s1, channelId, c', k);
    PutGet(s1, channelId, c', channelId);
  }

  /** Evaluate then mark each listed channel, in order. */
  function DrainChannels(s: Store, ids: seq<Text>, policy: Policy, settings: Settings, now: int): Evaluation
    decreases |ids|
  {
    if |ids| == 0 then Evaluation([], s)
    else
      var e := ConversationChunks(s, ids[0], policy, settings, now);
      var rest := DrainChannels(MarkEvaluated(e.store, ids[0], now), ids[1..], policy, settings, now);
      Evaluation(e.chunks + rest.chunks, rest.store)
  }

  /** `getAllPendingChunks`: the due channels are listed first, then each is
      evaluated and marked. */
  function Drain(s: Store, policy: Policy, settings: Settings, now: int): Evaluation {
    DrainChannels(s, DueChannels(s, settings, now), policy, settings, now)
  }

  /** Draining listed channels resets each one's counter, even when it gave
      no chunk, and leaves every unlisted channel exactly as it was. */
  lemma {:induction false} DrainChannelsEffect(s: Store, ids: seq<Text>, policy: Policy, settings: Settings, now: int, k: Text)
    requires UniqueKeys(s)
    ensures var s' := DrainChannels(s, ids, policy, settings, now).store;
      && UniqueKeys(s')
      && (k in ids ==> Get(s', k).Some? && Get(s', k).value.messagesSinceLastEvaluation == 0)
      && (k !in ids ==> Get(s', k) == Get(s, k))
    decreases |ids|
  {
    if |ids| > 0 {
      var e := ConversationChunks(s, ids[0], policy, settings, now);
      ConversationChunksStore(s, ids[0], policy, settings, now, k);
      var s2 := MarkEvaluated(e.store, ids[0], now);
      MarkEvaluatedEffect(e.store, ids[0], now, k);
      DrainChannelsEffect(s2, ids[1..], policy, settings, now, k);
      if k == ids[0] && k !in ids[1..] {
        MarkEvaluatedEffect(e.store, ids[0], now, k);
      }
    }
  }

  /** Every chunk a drain emits is valid and belongs to a listed channel. */
  lemma {:induction false} DrainChannelsValid(s: Store, ids: seq<Text>, policy: Policy, settings: Settings, now: int)
    ensures forall ch | ch in DrainChannels(s, ids, policy, settings, now).chunks ::
      ValidChunk(policy, ch) && ch.channelId in ids
    decreases |ids|
  {
    if |ids| > 0 {
      var e := ConversationChunks(s, ids[0], policy, settings, now);
      ConversationChunksValid(s, ids[0], policy, settings, now);
      DrainChannelsValid(MarkEvaluated(e.store, ids[0], now), ids[1..], policy, settings, now);
    }
  }

  /** `getAllPendingChunks` resets the counter of every due channel, leaves
      the channels that were not due untouched, and emits only valid chunks
      of due channels. */
  lemma DrainEffect(s: Store, policy: Policy, settings: Settings, now: int, k: Text)
    requires UniqueKeys(s)
    ensures var due := DueChannels(s, settings, now);
      var e := Drain(s, policy, settings, now);
      && (k in due ==> Get(e.store, k).Some? && Get(e.store, k).value.messagesSinceLastEvaluation == 0)
      && (k !in due ==> Get(e.store, k) == Get(s, k))
      && forall ch | ch in e.chunks :: ValidChunk(policy, ch) && ch.channelId in due
  {
    DrainChannelsEffect(s, DueChannels(s, settings, now), policy, settings, now, k);
    DrainChannelsValid(s, DueChannels(s, settings, now), policy, settings, now);
  }
}
