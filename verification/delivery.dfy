/**
 * The Slack side of a suggestion (src/delivery/slackDelivery.ts and the
 * handlers in src/index.ts): the permalink to a conversation's first
 * message, the strength threshold a suggestion must reach to be posted, the
 * blocks a suggestion is posted as, and what the interactive handlers read
 * back out of those blocks: the drafts for the edit dialog and the topic
 * for the feedback dialog.
 */
module Delivery {
  import opened Wrappers
  import opened Text

  // ---------------------------------------------------------------------
  // Permalinks

  /** `s.replace(u, '')` with a one-unit string pattern: only the first
      occurrence of `u` goes. */
  function RemoveFirst(s: Text, u: Unit): (r: Text)
    ensures |r| == |s| - (if u in s then 1 else 0)
    ensures multiset(r) + (if u in s then multiset{u} else multiset{}) == multiset(s)
  {
    if u in s then
      var i := UnitIndex(s, u);
      assert s == s[..i] + [s[i]] + s[i + 1..];
      s[..i] + s[i + 1..]
    else s
  }

  /** Removing the first `u` of `a + [u] + b`, where `a` has none, leaves
      exactly `a + b`: every later `u` stays. */
  lemma RemoveFirstOf(a: Text, u: Unit, b: Text)
    requires u !in a
    ensures RemoveFirst(a + [u] + b, u) == a + b
  {
    var s := a + [u] + b;
    assert s[|a|] == u;
    var i := UnitIndex(s, u);
    assert s[..i] == a && s[i + 1..] == b;
  }

  const LinkHead: Text := Bmp("https://")
  const LinkMiddle: Text := Bmp(".slack.com/archives/")
  const LinkTail: Text := Bmp("/p")

  /** `buildMessageLink`: no link without a workspace domain (an unset
      variable reads as the empty string); otherwise the archive URL, whose
      last segment is the timestamp with its first dot removed. */
  function MessageLink(domain: Text, channelId: Text, ts: Text): (r: Text)
    ensures r == [] <==> domain == []
    ensures domain != [] ==> |r| == |LinkHead| + |domain| + |LinkMiddle| + |channelId| + |LinkTail| + |ts| - (if Dot in ts then 1 else 0)
  {
    if domain == [] then []
    else LinkHead + domain + LinkMiddle + channelId + LinkTail + RemoveFirst(ts, Dot)
  }

  /** A Slack timestamp `seconds.micros` links as `p` followed by the
      seconds and the rest of the timestamp verbatim: a second dot, if
      there is one, survives into the link. */
  lemma LinkOfTimestamp(domain: Text, channelId: Text, seconds: Text, rest: Text)
    requires domain != [] && Dot !in seconds
    ensures MessageLink(domain, channelId, seconds + [Dot] + rest)
      == LinkHead + domain + LinkMiddle + channelId + LinkTail + seconds + rest
  {
    RemoveFirstOf(seconds, Dot, rest);
  }

  // ---------------------------------------------------------------------
  // The strength threshold

  const Low: Text := Bmp("low")
  const Medium: Text := Bmp("medium")
  const High: Text := Bmp("high")

  /** `{ low: 1, medium: 2, high: 3 }[s]`. Any other key reads `undefined`
      or a value inherited from `Object.prototype`; against a number either
      compares false. Both sides inherited compare as strings, which the
      model leaves out. */
  function Rank(s: Text): (r: Option<nat>)
    ensures r.Some? <==> s == Low || s == Medium || s == High
    ensures r.Some? ==> 1 <= r.value <= 3
  {
    if s == Low then Some(1)
    else if s == Medium then Some(2)
    else if s == High then Some(3)
    else None
  }

  /** The configured threshold: the environment value, or `medium` when it
      is unset or empty. */
  function MinStrength(env: Option<Text>): (r: Text)
    ensures env.Some? && env.value != [] ==> r == env.value
    ensures env.None? || env.value == [] ==> r == Medium
  {
    if env.Some? && env.value != [] then env.value else Medium
  }

  /** The run loop skips an opportunity when the rank of its strength is
      below the rank of the threshold. A comparison of a number with
      `undefined` or an inherited value is false, so when one side is one of
      the three names and the other is not, nothing is skipped. */
  predicate Skipped(strength: Text, min: Text) {
    Rank(strength).Some? && Rank(min).Some? && Rank(strength).value < Rank(min).value
  }

  /** The whole table: exactly three (strength, threshold) pairs skip. */
  lemma SkippedIff(strength: Text, min: Text)
    ensures Skipped(strength, min) <==>
      || (strength == Low && min == Medium)
      || (strength == Low && min == High)
      || (strength == Medium && min == High)
  {
    assert Low != Medium && Low != High && Medium != High by {
      assert |Low| == 3 && |Medium| == 6 && |High| == 4;
    }
  }

  /** With the default threshold only `low` opportunities are skipped. */
  lemma DefaultThreshold(strength: Text)
    ensures Skipped(strength, MinStrength(None)) <==> strength == Low
  {
    SkippedIff(strength, Medium);
  }

  /** Raising the strength never turns a posted opportunity into a skipped
      one. */
  lemma SkippedMonotone(a: Text, b: Text, min: Text)
    requires Rank(a).Some? && Rank(b).Some? && Rank(a).value <= Rank(b).value
    ensures Skipped(b, min) ==> Skipped(a, min)
  {
  }

  // ---------------------------------------------------------------------
  // Blocks

  /** A block as the handlers see it: its `block_id` and its `text.text`,
      each possibly absent. */
  datatype Block = Block(id: Option<Text>, text: Option<Text>)

  /** What a posted suggestion shows. The strength section (its emoji, the
      upper-cased strength and the reasoning) is taken as rendered. */
  datatype Post = Post(
    topic: Text,
    channelName: Text,
    strengthSection: Text,
    whyCompelling: Text,
    linkedInDraft: Text,
    xDraft: Text)

  const LinkedInId: Text := Bmp("linkedin_draft")
  const XId: Text := Bmp("x_draft")

  /** `*💡 Topic:* ` (U+1F4A1 is the surrogate pair D83D DCA1). */
  const TopicHead: Text := [0x2A, 0xD83D, 0xDCA1, 0x20, 0x54, 0x6F, 0x70, 0x69, 0x63, 0x3A, 0x2A, 0x20]

  /** `*🔗 LinkedIn Draft:*` and a line feed (U+1F517 is D83D DD17). */
  const LinkedInHeading: Text := [
    0x2A, 0xD83D, 0xDD17, 0x20, 0x4C, 0x69, 0x6E, 0x6B, 0x65, 0x64, 0x49, 0x6E,
    0x20, 0x44, 0x72, 0x61, 0x66, 0x74, 0x3A, 0x2A, 0x0A]

  /** `*🐦 X/Twitter Draft:*` and a line feed (U+1F426 is D83D DC26). */
  const XHeading: Text := [
    0x2A, 0xD83D, 0xDC26, 0x20, 0x58, 0x2F, 0x54, 0x77, 0x69, 0x74, 0x74, 0x65, 0x72,
    0x20, 0x44, 0x72, 0x61, 0x66, 0x74, 0x3A, 0x2A, 0x0A]

  /** `📣 Content Opportunity Detected!` (U+1F4E3 is D83D DCE3). */
  const HeaderText: Text := [
    0xD83D, 0xDCE3, 0x20, 0x43, 0x6F, 0x6E, 0x74, 0x65, 0x6E, 0x74, 0x20, 0x4F, 0x70, 0x70, 0x6F, 0x72, 0x74, 0x75, 0x6E, 0x69, 0x74, 0x79,
    0x20, 0x44, 0x65, 0x74, 0x65, 0x63, 0x74, 0x65, 0x64, 0x21]

  /** `*📍 Channel:* #` (U+1F4CD is D83D DCCD). */
  const ChannelHead: Text := [0x2A, 0xD83D, 0xDCCD, 0x20, 0x43, 0x68, 0x61, 0x6E, 0x6E, 0x65, 0x6C, 0x3A, 0x2A, 0x20, 0x23]

  const WhyHead: Text := Bmp("*Why it works:* ")

  /** The unit lists above spell the headings with their emoji encoded. */
  lemma TopicHeadSpelled()
    ensures TopicHead == Bmp("*") + Encode('\U{1F4A1}') + Bmp(" Topic:* ")
  {
    assert Encode('\U{1F4A1}') == [0xD83D, 0xDCA1];
  }

  lemma LinkedInHeadingSpelled()
    ensures LinkedInHeading == Bmp("*") + Encode('\U{1F517}') + Bmp(" LinkedIn Draft:*\n")
  {
    assert Encode('\U{1F517}') == [0xD83D, 0xDD17];
  }

  lemma XHeadingSpelled()
    ensures XHeading == Bmp("*") + Encode('\U{1F426}') + Bmp(" X/Twitter Draft:*\n")
  {
    assert Encode('\U{1F426}') == [0xD83D, 0xDC26];
  }

  /** A draft section's text: its heading, then the draft in a code fence. */
  function DraftText(heading: Text, draft: Text): (r: Text)
    ensures |r| == |heading| + |draft| + 6
    ensures OccursAt(r, Fence, |heading|) && OccursAt(r, Fence, |r| - 3)
  {
    heading + Fence + draft + Fence
  }

  /** `formatSuggestionBlocks`: header, topic, channel, strength and pitch
      sections, a divider, the two draft sections, a divider, then the
      context line and the buttons, whose texts sit in their elements
      rather than in `text.text`. */
  function PostBlocks(p: Post): (r: seq<Block>)
    ensures |r| == 11
    ensures forall k | 0 <= k < |r| && k != 6 && k != 7 :: r[k].id.None?
    ensures r[6].id == Some(LinkedInId) && r[7].id == Some(XId)
    ensures r[1].text == Some(TopicHead + p.topic)
    ensures r[6].text == Some(DraftText(LinkedInHeading, p.linkedInDraft))
    ensures r[7].text == Some(DraftText(XHeading, p.xDraft))
  {
    [ Block(None, Some(HeaderText)),
      Block(None, Some(TopicHead + p.topic)),
      Block(None, Some(ChannelHead + p.channelName)),
      Block(None, Some(p.strengthSection)),
      Block(None, Some(WhyHead + p.whyCompelling)),
      Block(None, None),
      Block(Some(LinkedInId), Some(DraftText(LinkedInHeading, p.linkedInDraft))),
      Block(Some(XId), Some(DraftText(XHeading, p.xDraft))),
      Block(None, None),
      Block(None, None),
      Block(None, None) ]
  }

  // ---------------------------------------------------------------------
  // Reading the drafts back

  /** `blocks.find(b => b.block_id === id)`, as an index. */
  function FindBlock(blocks: seq<Block>, id: Text): (r: Option<nat>)
    ensures r.Some? ==> r.value < |blocks| && blocks[r.value].id == Some(id)
    ensures r.Some? ==> forall k | 0 <= k < r.value :: blocks[k].id != Some(id)
    ensures r.None? ==> forall k | 0 <= k < |blocks| :: blocks[k].id != Some(id)
  {
    if |blocks| == 0 then None
    else if blocks[0].id == Some(id) then Some(0)
    else
      match FindBlock(blocks[1..], id)
      case None => None
      case Some(k) => Some(k + 1)
  }

  /** A first fence at `i`, and the next fence that starts at or after
      `i + 3` at `j`: the span the lazy `/```([\s\S]*?)```/` matches. */
  predicate FirstFences(t: Text, i: nat, j: nat) {
    && i + 3 <= j
    && OccursAt(t, Fence, i) && OccursAt(t, Fence, j)
    && (forall k | 0 <= k < i :: !OccursAt(t, Fence, k))
    && (forall k | i + 3 <= k < j :: !OccursAt(t, Fence, k))
  }

  /** No two fences that do not overlap: the pattern cannot match. */
  predicate NoFencePair(t: Text) {
    forall i, j | 0 <= i && i + 3 <= j < |t| :: !(OccursAt(t, Fence, i) && OccursAt(t, Fence, j))
  }

  /** Where `/```([\s\S]*?)```/` matches in `t`. The leftmost match starts
      at the first fence: any fence pair starting later would also close a
      match starting there. */
  function FenceSpan(t: Text): (r: Option<(nat, nat)>)
    ensures r.Some? ==> FirstFences(t, r.value.0, r.value.1)
    ensures r.None? <==> NoFencePair(t)
  {
    match IndexOf(t, Fence)
    case None => None
    case Some(i) =>
      match IndexOfFrom(t, Fence, i + 3)
      case None => None
      case Some(j) => Some((i, j))
  }

  /** `extractDraft`: the trimmed body of the first fenced span in the text
      of the first block with the id, or the empty string when there is no
      such block, it has no text, or the text holds no fenced span. */
  function ExtractDraft(blocks: seq<Block>, id: Text): (r: Text)
    ensures Trimmed(r)
    ensures FindBlock(blocks, id).None? ==> r == []
    ensures FindBlock(blocks, id).Some? ==> var t := blocks[FindBlock(blocks, id).value].text;
      t.None? || NoFencePair(t.value) ==> r == []
  {
    match FindBlock(blocks, id)
    case None => []
    case Some(b) =>
      match blocks[b].text
      case None => []
      case Some(t) =>
        if t == [] then []
        else
          match FenceSpan(t)
          case None => []
          case Some((i, j)) => Trim(t[i + 3..j])
  }

  /** No backtick in `t[a..b]` means no fence starts there. */
  lemma NoFenceIn(t: Text, a: nat, b: nat)
    requires a <= b <= |t|
    requires forall k | a <= k < b :: t[k] != Backtick
    ensures forall k | a <= k < b :: !OccursAt(t, Fence, k)
  {
    forall k | a <= k < b ensures !OccursAt(t, Fence, k) {
      FenceHead(t, k);
    }
  }

  lemma FenceHead(t: Text, k: int)
    ensures OccursAt(t, Fence, k) ==> t[k] == Backtick
  {
    if OccursAt(t, Fence, k) {
      assert t[k..k + 3][0] == t[k];
    }
  }

  /** A draft without backticks sits exactly between the two fences its
      section adds. */
  lemma DraftTextSpan(heading: Text, draft: Text)
    requires Backtick !in heading && Backtick !in draft
    ensures var t := DraftText(heading, draft);
      FenceSpan(t) == Some((|heading|, |heading| + 3 + |draft|)) && t[|heading| + 3..|heading| + 3 + |draft|] == draft
  {
    DraftTextOpens(heading, draft);
    DraftTextCloses(heading, draft);
  }

  lemma DraftTextOpens(heading: Text, draft: Text)
    requires Backtick !in heading
    ensures IndexOf(DraftText(heading, draft), Fence) == Some(|heading|)
  {
    var t := DraftText(heading, draft);
    assert forall k | 0 <= k < |heading| :: t[k] == heading[k];
    NoFenceIn(t, 0, |heading|);
    IndexOfFromIs(t, Fence, 0, |heading|);
  }

  lemma DraftTextCloses(heading: Text, draft: Text)
    requires Backtick !in draft
    ensures var t, a := DraftText(heading, draft), |heading| + 3;
      IndexOfFrom(t, Fence, a) == Some(a + |draft|) && t[a..a + |draft|] == draft
  {
    var t, a := DraftText(heading, draft), |heading| + 3;
    assert t == (heading + Fence) + draft + Fence;
    assert forall k | a <= k < a + |draft| :: t[k] == draft[k - a];
    NoFenceIn(t, a, a + |draft|);
    IndexOfFromIs(t, Fence, a, a + |draft|);
  }

  /** The leftmost occurrence from `from` is the only one with its
      properties. */
  lemma IndexOfFromIs(s: Text, pat: Text, from: nat, v: nat)
    requires from <= v && OccursAt(s, pat, v)
    requires forall k | from <= k < v :: !OccursAt(s, pat, k)
    ensures IndexOfFrom(s, pat, from) == Some(v)
  {
  }

  /** The drafts the edit dialog starts from are the posted drafts,
      trimmed, whenever they contain no backtick. */
  lemma PostedDrafts(p: Post)
    requires Backtick !in p.linkedInDraft && Backtick !in p.xDraft
    ensures ExtractDraft(PostBlocks(p), LinkedInId) == Trim(p.linkedInDraft)
    ensures ExtractDraft(PostBlocks(p), XId) == Trim(p.xDraft)
  {
    PostedLinkedIn(p);
    PostedX(p);
  }

  lemma PostedLinkedIn(p: Post)
    requires Backtick !in p.linkedInDraft
    ensures ExtractDraft(PostBlocks(p), LinkedInId) == Trim(p.linkedInDraft)
  {
    HeadingsFenceFree();
    PostedSection(p, LinkedInId, 6, LinkedInHeading, p.linkedInDraft);
  }

  lemma PostedX(p: Post)
    requires Backtick !in p.xDraft
    ensures ExtractDraft(PostBlocks(p), XId) == Trim(p.xDraft)
  {
    HeadingsFenceFree();
    assert LinkedInId != XId by { assert |LinkedInId| == 14 && |XId| == 7; }
    PostedSection(p, XId, 7, XHeading, p.xDraft);
  }

  lemma HeadingsFenceFree()
    ensures Backtick !in LinkedInHeading && Backtick !in XHeading
  {
  }

  /** One draft section of `PostedDrafts`. */
  lemma PostedSection(p: Post, id: Text, b: nat, heading: Text, draft: Text)
    requires Backtick !in heading && Backtick !in draft
    requires b < 11 && PostBlocks(p)[b] == Block(Some(id), Some(DraftText(heading, draft)))
    requires forall k | 0 <= k < b :: PostBlocks(p)[k].id != Some(id)
    ensures ExtractDraft(PostBlocks(p), id) == Trim(draft)
  {
    FindBlockIs(PostBlocks(p), id, b);
    ExtractSection(PostBlocks(p), id, heading, draft);
  }

  /** `find` stops at the first block with the id. */
  lemma FindBlockIs(blocks: seq<Block>, id: Text, b: nat)
    requires b < |blocks| && blocks[b].id == Some(id)
    requires forall k | 0 <= k < b :: blocks[k].id != Some(id)
    ensures FindBlock(blocks, id) == Some(b)
  {
  }

  // ---------------------------------------------------------------------
  // Writing edited drafts back

  /** The edit handler's block map: each draft section gets the edited
      draft as its text, every other block is kept. */
  function Redraft(b: Block, linkedIn: Text, x: Text): Block {
    if b.id == Some(LinkedInId) then b.(text := Some(DraftText(LinkedInHeading, linkedIn)))
    else if b.id == Some(XId) then b.(text := Some(DraftText(XHeading, x)))
    else b
  }

  function UpdateDrafts(blocks: seq<Block>, linkedIn: Text, x: Text): (r: seq<Block>)
    ensures |r| == |blocks|
    ensures forall k | 0 <= k < |r| :: r[k].id == blocks[k].id
  {
    seq(|blocks|, k requires 0 <= k < |blocks| => Redraft(blocks[k], linkedIn, x))
  }

  /** Blocks that are not draft sections come through an edit unchanged. */
  lemma UpdateKeepsOthers(blocks: seq<Block>, linkedIn: Text, x: Text, k: nat)
    requires k < |blocks| && blocks[k].id != Some(LinkedInId) && blocks[k].id != Some(XId)
    ensures UpdateDrafts(blocks, linkedIn, x)[k] == blocks[k]
  {
  }

  /** After an edit the edit dialog reads back the edited drafts, trimmed,
      whenever the message has the draft section and the draft contains no
      backtick. */
  lemma EditRoundTrip(blocks: seq<Block>, linkedIn: Text, x: Text)
    requires Backtick !in linkedIn && Backtick !in x
    ensures FindBlock(blocks, LinkedInId).Some? ==> ExtractDraft(UpdateDrafts(blocks, linkedIn, x), LinkedInId) == Trim(linkedIn)
    ensures FindBlock(blocks, XId).Some? ==> ExtractDraft(UpdateDrafts(blocks, linkedIn, x), XId) == Trim(x)
  {
    if FindBlock(blocks, LinkedInId).Some? {
      EditSection(blocks, linkedIn, x, LinkedInId, LinkedInHeading, linkedIn);
    }
    if FindBlock(blocks, XId).Some? {
      EditSection(blocks, linkedIn, x, XId, XHeading, x);
    }
  }

  /** One draft section of `EditRoundTrip`. */
  lemma EditSection(blocks: seq<Block>, linkedIn: Text, x: Text, id: Text, heading: Text, draft: Text)
    requires Backtick !in heading && Backtick !in draft
    requires (id, heading, draft) == (LinkedInId, LinkedInHeading, linkedIn) || (id, heading, draft) == (XId, XHeading, x)
    requires FindBlock(blocks, id).Some?
    ensures ExtractDraft(UpdateDrafts(blocks, linkedIn, x), id) == Trim(draft)
  {
    var r := UpdateDrafts(blocks, linkedIn, x);
    FindSameIds(blocks, r, id);
    var b := FindBlock(blocks, id).value;
    assert LinkedInId != XId by { assert |LinkedInId| == 14 && |XId| == 7; }
    assert r[b] == Redraft(blocks[b], linkedIn, x);
    ExtractSection(r, id, heading, draft);
  }

  /** A found block whose text is a draft section yields that draft. */
  lemma ExtractSection(blocks: seq<Block>, id: Text, heading: Text, draft: Text)
    requires Backtick !in heading && Backtick !in draft
    requires FindBlock(blocks, id).Some?
    requires blocks[FindBlock(blocks, id).value].text == Some(DraftText(heading, draft))
    ensures ExtractDraft(blocks, id) == Trim(draft)
  {
    DraftTextSpan(heading, draft);
  }

  /** `find` by id depends on the ids alone. */
  lemma FindSameIds(a: seq<Block>, b: seq<Block>, id: Text)
    requires |a| == |b| && forall k | 0 <= k < |a| :: a[k].id == b[k].id
    ensures FindBlock(a, id) == FindBlock(b, id)
  {
  }

  // ---------------------------------------------------------------------
  // Reading the topic back

  const UnknownTopic: Text := Bmp("Unknown Topic")

  /** The first line terminator at or after `from`, or the end: where the
      greedy `(.*)` stops. */
  function LineEnd(t: Text, from: nat): (r: nat)
    requires from <= |t|
    ensures from <= r <= |t|
    ensures r < |t| ==> IsLineTerminator(t[r])
    ensures forall k | from <= k < r :: !IsLineTerminator(t[k])
    decreases |t| - from
  {
    if from == |t| || IsLineTerminator(t[from]) then from else LineEnd(t, from + 1)
  }

  /** `LineEnd` is the only index with its properties. */
  lemma LineEndIs(t: Text, from: nat, e: nat)
    requires from <= e <= |t|
    requires e < |t| ==> IsLineTerminator(t[e])
    requires forall k | from <= k < e :: !IsLineTerminator(t[k])
    ensures LineEnd(t, from) == e
  {
  }

  /** The feedback handler's topic: what follows the first `*💡 Topic:* ` in
      the text of the second block, up to the end of that line; `Unknown
      Topic` when there is no second block, it has no text, or the heading
      is not in it. */
  function TopicOf(blocks: seq<Block>): (r: Text)
    ensures forall k | 0 <= k < |r| :: !IsLineTerminator(r[k])
    ensures |blocks| < 2 || blocks[1].text.None? || !Contains(blocks[1].text.value, TopicHead) ==> r == UnknownTopic
  {
    if |blocks| > 1 && blocks[1].text.Some? && blocks[1].text.value != [] then
      var t := blocks[1].text.value;
      match IndexOf(t, TopicHead)
      case None => UnknownTopic
      case Some(i) =>
        var a := i + |TopicHead|;
        t[a..LineEnd(t, a)]
    else UnknownTopic
  }

  /** The feedback dialog reads back the posted topic up to its first line
      terminator: the whole topic when it is a single line. */
  lemma PostedTopic(p: Post)
    ensures TopicOf(PostBlocks(p)) == p.topic[..LineEnd(p.topic, 0)]
    ensures (forall k | 0 <= k < |p.topic| :: !IsLineTerminator(p.topic[k])) ==> TopicOf(PostBlocks(p)) == p.topic
  {
    var t := TopicHead + p.topic;
    var n := |TopicHead|;
    assert OccursAt(t, TopicHead, 0);
    assert IndexOf(t, TopicHead) == Some(0);
    var e := LineEnd(p.topic, 0);
    assert forall k | n <= k < |t| :: t[k] == p.topic[k - n];
    LineEndIs(t, n, n + e);
    assert t[n..n + e] == p.topic[..e];
  }

  /** Editing the drafts does not change the topic the feedback dialog
      reads. */
  lemma EditKeepsTopic(blocks: seq<Block>, linkedIn: Text, x: Text)
    requires |blocks| > 1 ==> blocks[1].id.None?
    ensures TopicOf(UpdateDrafts(blocks, linkedIn, x)) == TopicOf(blocks)
  {
    if |blocks| > 1 {
      UpdateKeepsOthers(blocks, linkedIn, x, 1);
    }
  }
}
