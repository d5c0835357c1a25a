/**
 * The records the buffer works on: a buffered chat message, a conversation
 * chunk, and the buffer settings read from the environment.
 */
module Messages {
  import opened Wrappers
  import opened Text
  import opened Seqs

  /** A buffered message. `timestamp` is the message time in milliseconds
      since the epoch (the value a `Date` holds); `ts` is the platform's own
      timestamp string, kept for building links. */
  datatype Message = Message(
    ts: Text,
    channelId: Text,
    userId: Text,
    userName: Text,
    text: Text,
    timestamp: int,
    threadTs: Option<Text>)

  /** `message.threadTs` is truthy: present and not the empty string. */
  predicate InThread(m: Message) {
    m.threadTs.Some? && |m.threadTs.value| > 0
  }

  /** A group of messages judged to be one finished exchange. */
  datatype Chunk = Chunk(channelId: Text, messages: seq<Message>, startTime: int, endTime: int)

  /** A chunk whose time range is taken from its first and last message. */
  function MakeChunk(channelId: Text, messages: seq<Message>): Chunk
    requires |messages| > 0
  {
    Chunk(channelId, messages, messages[0].timestamp, Last(messages).timestamp)
  }

  /** The messages of `cs`, chunk after chunk. */
  function AllMessages(cs: seq<Chunk>): seq<Message> {
    if |cs| == 0 then [] else AllMessages(cs[..|cs| - 1]) + cs[|cs| - 1].messages
  }

  lemma AllMessagesAppend(a: seq<Chunk>, b: seq<Chunk>)
    ensures AllMessages(a + b) == AllMessages(a) + AllMessages(b)
    decreases |b|
  {
    if |b| > 0 {
      assert (a + b)[..|a + b| - 1] == a + b[..|b| - 1];
      AllMessagesAppend(a, b[..|b| - 1]);
    } else {
      assert a + b == a;
    }
  }

  /** The buffer settings: `maxMessages` bounds every message sequence,
      `evaluationThreshold` is the message-count trigger and
      `conversationGapMinutes` the idle gap. */
  datatype Settings = Settings(maxMessages: nat, evaluationThreshold: int, conversationGapMinutes: int)

  const MinuteMs: int := 60000

  /** The idle gap in milliseconds. Comparing a millisecond difference with
      it is the same as comparing that difference divided by 60000 with the
      gap in minutes. */
  function GapMs(settings: Settings): int {
    settings.conversationGapMinutes * MinuteMs
  }
}
