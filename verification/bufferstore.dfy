/**
 * The per-channel message buffers (src/buffer/messageBuffer.ts): state and
 * the operations that add, count and clear messages. Evaluation lives in
 * the Scheduler module.
 *
 * Each channel keeps a main sequence, a map of threads each with its own
 * sequence and last-activity time, the time of its last evaluation, and the
 * number of messages added since then. Every sequence is a bounded queue:
 * a push beyond `maxMessages` drops the oldest element.
 */
module BufferStore {
  import opened Wrappers
  import opened Text
  import opened Seqs
  import opened Messages
  import opened Assoc

  datatype Thread = Thread(messages: seq<Message>, lastActivity: int)

  datatype Channel = Channel(
    messages: seq<Message>,
    threads: seq<(Text, Thread)>,
    lastEvaluationTime: int,
    messagesSinceLastEvaluation: nat)

  /** All channel buffers, in the order the channels were first seen. */
  type Store = seq<(Text, Channel)>

  /** The buffer `getBuffer` creates for a channel it has not seen. */
  function NewChannel(now: int): Channel {
    Channel([], [], now, 0)
  }

  /** `getBuffer`: the channel's buffer, and the store, which gains a fresh
      buffer at the end when the channel is new. */
  function GetBuffer(s: Store, id: Text, now: int): (r: (Channel, Store))
    ensures Get(r.1, id) == Some(r.0)
    ensures Has(s, id) ==> r.1 == s && Get(s, id) == Some(r.0)
    ensures !Has(s, id) ==> r.0 == NewChannel(now) && r.1 == s + [(id, r.0)]
  {
    match Get(s, id)
    case Some(c) => (c, s)
    case None => (NewChannel(now), s + [(id, NewChannel(now))])
  }

  /** A fresh buffer leaves the other channels alone and keeps keys distinct. */
  lemma GetBufferOthers(s: Store, id: Text, now: int, k: Text)
    requires UniqueKeys(s)
    ensures UniqueKeys(GetBuffer(s, id, now).1)
    ensures k != id ==> Get(GetBuffer(s, id, now).1, k) == Get(s, k)
  {
    if !Has(s, id) {
      PutGet(s, id, NewChannel(now), k);
    }
  }

  // ---------------------------------------------------------------------
  // Bounded queues

  /** `push` followed by one `shift` when the queue has grown beyond `max`. */
  function BoundedPush(ms: seq<Message>, m: Message, max: nat): (r: seq<Message>)
    ensures |r| == if |ms| < max then |ms| + 1 else |ms|
    ensures max > 0 ==> |r| > 0 && Last(r) == m
  {
    var pushed := ms + [m];
    if |pushed| > max then pushed[1..] else pushed
  }

  /** Only the oldest element is ever evicted: the result is a suffix of the
      queue with `m` appended. */
  lemma BoundedPushSuffix(ms: seq<Message>, m: Message, max: nat)
    ensures var r := BoundedPush(ms, m, max);
      |r| <= |ms| + 1 && r == (ms + [m])[|ms| + 1 - |r|..]
  {
  }

  /** The queue that pushing `ms` one by one into an empty queue leaves. */
  function PushAll(ms: seq<Message>, max: nat): seq<Message> {
    if |ms| == 0 then [] else BoundedPush(PushAll(ms[..|ms| - 1], max), Last(ms), max)
  }

  function Min(a: nat, b: nat): nat {
    if a < b then a else b
  }

  /** A bounded queue holds exactly the last `max` messages pushed into it,
      in arrival order. */
  lemma {:induction false} PushAllKeepsLast(ms: seq<Message>, max: nat)
    ensures PushAll(ms, max) == ms[|ms| - Min(|ms|, max)..]
    decreases |ms|
  {
    if |ms| > 0 {
      var p := ms[..|ms| - 1];
      PushAllKeepsLast(p, max);
      PushKeepsLast(p, Last(ms), max);
      SplitLast(ms);
    }
  }

  /** One push onto the last `max` of `p` leaves the last `max` of `p`
      with `x` appended. */
  lemma PushKeepsLast(p: seq<Message>, x: Message, max: nat)
    ensures BoundedPush(p[|p| - Min(|p|, max)..], x, max) == (p + [x])[|p| + 1 - Min(|p| + 1, max)..]
  {
    var q := p[|p| - Min(|p|, max)..];
    if |q| < max {
      assert q == p;
    } else if max > 0 {
      assert (q + [x])[1..] == (p + [x])[|p| + 1 - max..];
    }
  }

  // ---------------------------------------------------------------------
  // Adding a message

  /** The key of a message's thread, when it is in one. */
  function ThreadKey(m: Message): Text
    requires InThread(m)
  {
    m.threadTs.value
  }

  /** What `addMessage` does to the channel's buffer: count the message and
      push it onto its thread's queue, creating the thread if needed and
      stamping it with the message's time, or onto the main queue. */
  function Route(c: Channel, m: Message, max: nat, now: int): (r: Channel)
    ensures r.messagesSinceLastEvaluation == c.messagesSinceLastEvaluation + 1
    ensures r.lastEvaluationTime == c.lastEvaluationTime
  {
    var counted := c.(messagesSinceLastEvaluation := c.messagesSinceLastEvaluation + 1);
    if InThread(m) then
      var t := Get(c.threads, ThreadKey(m)).GetOr(Thread([], now));
      counted.(threads := Put(c.threads, ThreadKey(m), Thread(BoundedPush(t.messages, m, max), m.timestamp)))
    else
      counted.(messages := BoundedPush(c.messages, m, max))
  }

  /** `addMessage`. */
  function AddMessage(s: Store, m: Message, settings: Settings, now: int): Store {
    var (c, s1) := GetBuffer(s, m.channelId, now);
    Put(s1, m.channelId, Route(c, m, settings.maxMessages, now))
  }

  /** The buffer a channel has, or the one `getBuffer` would create. */
  function ChannelOr(s: Store, id: Text, now: int): Channel {
    Get(s, id).GetOr(NewChannel(now))
  }

  /** After `addMessage` the channel holds the routed buffer, and no other
      channel changes. */
  lemma AddMessageChannels(s: Store, m: Message, settings: Settings, now: int, k: Text)
    requires UniqueKeys(s)
    ensures UniqueKeys(AddMessage(s, m, settings, now))
    ensures Get(AddMessage(s, m, settings, now), m.channelId)
      == Some(Route(ChannelOr(s, m.channelId, now), m, settings.maxMessages, now))
    ensures k != m.channelId ==> Get(AddMessage(s, m, settings, now), k) == Get(s, k)
  {
    var (c, s1) := GetBuffer(s, m.channelId, now);
    GetBufferOthers(s, m.channelId, now, k);
    PutGet(s1, m.channelId, Route(c, m, settings.maxMessages, now), k);
    PutGet(s1, m.channelId, Route(c, m, settings.maxMessages, now), m.channelId);
  }

  /** A main-channel message is pushed onto main; the threads are untouched. */
  lemma RouteMain(c: Channel, m: Message, max: nat, now: int)
    requires !InThread(m)
    ensures Route(c, m, max, now).messages == BoundedPush(c.messages, m, max)
    ensures Route(c, m, max, now).threads == c.threads
  {
  }

  /** A threaded message is pushed onto its thread's queue, which takes the
      message's time as its last activity; main and the other threads are
      untouched. */
  lemma RouteThread(c: Channel, m: Message, max: nat, now: int, key: Text)
    requires InThread(m) && UniqueKeys(c.threads)
    ensures var r := Route(c, m, max, now);
      && r.messages == c.messages
      && UniqueKeys(r.threads)
      && Get(r.threads, ThreadKey(m)) == Some(Thread(
           BoundedPush(Get(c.threads, ThreadKey(m)).GetOr(Thread([], now)).messages, m, max), m.timestamp))
      && (key != ThreadKey(m) ==> Get(r.threads, key) == Get(c.threads, key))
  {
    var t := Get(c.threads, ThreadKey(m)).GetOr(Thread([], now));
    var t' := Thread(BoundedPush(t.messages, m, max), m.timestamp);
    PutGet(c.threads, ThreadKey(m), t', key);
    PutGet(c.threads, ThreadKey(m), t', ThreadKey(m));
  }

  // ---------------------------------------------------------------------
  // The bound every queue keeps

  /** Every queue of `c` holds at most `max` messages and its thread keys
      are distinct. */
  predicate ChannelBounded(c: Channel, max: nat) {
    && |c.messages| <= max
    && UniqueKeys(c.threads)
    && forall j | 0 <= j < |c.threads| :: |c.threads[j].1.messages| <= max
  }

  predicate Bounded(s: Store, max: nat) {
    UniqueKeys(s) && forall i | 0 <= i < |s| :: ChannelBounded(s[i].1, max)
  }

  /** Every pair of `Put(xs, k, v)` is `(k, v)` or a pair of `xs`. */
  lemma PutPairs<V>(xs: seq<(Text, V)>, k: Text, v: V)
    ensures forall i | 0 <= i < |Put(xs, k, v)| :: Put(xs, k, v)[i] == (k, v) || Put(xs, k, v)[i] in xs
  {
  }

  lemma RouteBounded(c: Channel, m: Message, max: nat, now: int)
    requires ChannelBounded(c, max)
    ensures ChannelBounded(Route(c, m, max, now), max)
  {
    if InThread(m) {
      var t := Get(c.threads, ThreadKey(m)).GetOr(Thread([], now));
      var t' := Thread(BoundedPush(t.messages, m, max), m.timestamp);
      var r := Put(c.threads, ThreadKey(m), t');
      PutGet(c.threads, ThreadKey(m), t', ThreadKey(m));
      PutPairs(c.threads, ThreadKey(m), t');
      assert |t.messages| <= max by {
        if Has(c.threads, ThreadKey(m)) {
          assert c.threads[Find(c.threads, ThreadKey(m)).value].1 == t;
        }
      }
      forall j | 0 <= j < |r|
        ensures |r[j].1.messages| <= max
      {
        if r[j] != (ThreadKey(m), t') {
          var i :| 0 <= i < |c.threads| && c.threads[i] == r[j];
        }
      }
    }
  }

  /** No queue ever grows beyond `maxMessages`. */
  lemma AddMessageBounded(s: Store, m: Message, settings: Settings, now: int)
    requires Bounded(s, settings.maxMessages)
    ensures Bounded(AddMessage(s, m, settings, now), settings.maxMessages)
  {
    var max := settings.maxMessages;
    var (c, s1) := GetBuffer(s, m.channelId, now);
    GetBufferOthers(s, m.channelId, now, m.channelId);
    assert ChannelBounded(c, max) by {
      if Has(s, m.channelId) {
        assert s[Find(s, m.channelId).value].1 == c;
      }
    }
    RouteBounded(c, m, max, now);
    var c' := Route(c, m, max, now);
    var r := Put(s1, m.channelId, c');
    PutGet(s1, m.channelId, c', m.channelId);
    PutPairs(s1, m.channelId, c');
    forall i | 0 <= i < |r|
      ensures ChannelBounded(r[i].1, max)
    {
      if r[i] != (m.channelId, c') {
        var j :| 0 <= j < |s1| && s1[j] == r[i];
        if j < |s| {
          assert s1[j] == s[j];
        }
      }
    }
  }

  // ---------------------------------------------------------------------
  // Counting

  function ThreadSize(t: Thread): nat {
    |t.messages|
  }

  /** Messages held by a channel: main plus every thread. */
  function ChannelSize(c: Channel): nat {
    |c.messages| + Sum(c.threads, ThreadSize)
  }

  /** Messages held by the whole store. */
  function Total(s: Store): nat {
    Sum(s, ChannelSize)
  }

  /** `getMessageCount`: counts through the channel's buffer, creating it if
      the channel is new. */
  method MessageCount(s: Store, id: Text, now: int) returns (count: nat, s': Store)
    ensures s' == GetBuffer(s, id, now).1
    ensures count == ChannelSize(GetBuffer(s, id, now).0)
  {
    var c;
    c, s' := GetBuffer(s, id, now).0, GetBuffer(s, id, now).1;
    count := |c.messages|;
    var i := 0;
    while i < |c.threads|
      invariant i <= |c.threads|
      invariant count == |c.messages| + Sum(c.threads[..i], ThreadSize)
    {
      assert c.threads[..i + 1][..i] == c.threads[..i];
      count := count + |c.threads[i].1.messages|;
      i := i + 1;
    }
    assert c.threads[..i] == c.threads;
  }

  /** `getTotalMessageCount`: the counts of every channel the store holds;
      counting a known channel leaves the store unchanged. */
  method TotalMessageCount(s: Store) returns (total: nat)
    requires UniqueKeys(s)
    ensures total == Total(s)
  {
    total := 0;
    var i := 0;
    while i < |s|
      invariant i <= |s|
      invariant total == Sum(s[..i], ChannelSize)
    {
      FindUnique(s, i);
      var count, s' := MessageCount(s, s[i].0, 0);
      assert s[..i + 1][..i] == s[..i];
      total := total + count;
      i := i + 1;
    }
    assert s[..i] == s;
  }

  /** Each added message is one more message held, unless it pushed the
      oldest message of a full queue out. */
  lemma AddMessageTotal(s: Store, m: Message, settings: Settings, now: int)
    requires UniqueKeys(s)
    ensures var c := ChannelOr(s, m.channelId, now);
      var target := if InThread(m) then Get(c.threads, ThreadKey(m)).GetOr(Thread([], now)).messages else c.messages;
      Total(AddMessage(s, m, settings, now)) == Total(s) + (if |target| < settings.maxMessages then 1 else 0)
  {
    var max := settings.maxMessages;
    var (c, s1) := GetBuffer(s, m.channelId, now);
    var c' := Route(c, m, max, now);
    SumPut(s1, m.channelId, c', ChannelSize);
    if !Has(s, m.channelId) {
      SumAppend(s, (m.channelId, c), ChannelSize);
    }
    if InThread(m) {
      var t := Get(c.threads, ThreadKey(m)).GetOr(Thread([], now));
      SumPut(c.threads, ThreadKey(m), Thread(BoundedPush(t.messages, m, max), m.timestamp), ThreadSize);
    }
  }

  // ---------------------------------------------------------------------
  // Clearing

  /** `clearChannel`. */
  function ClearChannel(s: Store, id: Text): Store {
    Remove(s, id)
  }

  /** `clearAll`: every channel is forgotten, and with it its messages,
      counter and evaluation time. */
  function ClearAll(s: Store): (r: Store)
    ensures Total(r) == 0
    ensures forall id :: !Has(r, id)
  {
    []
  }

  /** After `clearAll` a channel is unknown again, so the next `getBuffer`
      starts it afresh. */
  lemma ClearAllForgets(s: Store, id: Text, now: int)
    ensures !Has(ClearAll(s), id)
    ensures GetBuffer(ClearAll(s), id, now).0 == NewChannel(now)
  {
  }

  /** Clearing a channel forgets it, keeps every other channel, and removes
      exactly its messages from the total. */
  lemma ClearChannelEffect(s: Store, id: Text, k: Text)
    requires UniqueKeys(s)
    ensures Get(ClearChannel(s, id), id) == None
    ensures k != id ==> Get(ClearChannel(s, id), k) == Get(s, k)
    ensures Total(ClearChannel(s, id)) == Total(s) - (if Has(s, id) then ChannelSize(Get(s, id).value) else 0)
  {
    RemoveGet(s, id, id);
    RemoveGet(s, id, k);
    SumRemove(s, id, ChannelSize);
  }
}
