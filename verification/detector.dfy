/**
 * The parser of the language model's answer to "is there a post in this
 * conversation?" (`parseResponse` in src/detector/contentDetector.ts). The
 * answer is read line by line; each line that starts with one of five
 * field tags sets that field, a later line overriding an earlier one.
 */
module Detector {
  import opened Wrappers
  import opened Text
  import opened Seqs
  import opened Messages

  const TopicTag: Text := Bmp("TOPIC:")
  const ReasoningTag: Text := Bmp("STRENGTH_REASONING:")
  const StrengthTag: Text := Bmp("STRENGTH:")
  const WhyTag: Text := Bmp("WHY_COMPELLING:")
  const QuotesTag: Text := Bmp("KEY_QUOTES:")

  /** The whole answer the model gives when it finds nothing. */
  const NoneAnswer: Text := Bmp("NONE")

  const DefaultReasoning: Text := Bmp("No specific reasoning provided")

  const LeftBracket: Unit := 0x5B
  const RightBracket: Unit := 0x5D
  const Comma: Unit := 0x2C
  const Space: Unit := 0x20

  /** A detected opportunity, carrying the conversation it came from. */
  datatype Opportunity = Opportunity(
    topic: Text,
    whyCompelling: Text,
    keyQuotes: seq<Text>,
    strength: Text,
    strengthReasoning: Text,
    channelId: Text,
    originalMessages: seq<Message>)

  // ---------------------------------------------------------------------
  // The key-quotes field

  /** `s.replace(/^o|c$/g, '')`: drops one leading `o` and one trailing `c`;
      a single unit that is an `o` is consumed by the first match only. */
  function Unwrap(s: Text, o: Unit, c: Unit): (r: Text)
    ensures |s| <= |r| + 2 && |r| <= |s|
    ensures (|s| == 0 || (s[0] != o && s[|s| - 1] != c)) ==> r == s
  {
    var a := if |s| > 0 && s[0] == o then 1 else 0;
    var b := if |s| > a && s[|s| - 1] == c then |s| - 1 else |s|;
    s[a..b]
  }

  /** Where a match of the separator `/",\s*"/` that starts at `q` ends, if
      one starts there. White space never is a quote, so the greedy `\s*`
      has exactly one way to succeed. */
  function SepEnd(s: Text, q: nat): (r: Option<nat>)
    ensures r.Some? ==> q + 3 <= r.value <= |s|
    ensures r.Some? ==> s[q] == Quote && s[q + 1] == Comma && s[r.value - 1] == Quote
  {
    if q + 2 <= |s| && s[q] == Quote && s[q + 1] == Comma then
      var w := WhiteEnd(s, q + 2);
      if w < |s| && s[w] == Quote then Some(w + 1) else None
    else None
  }

  /** The leftmost separator match at or after `from`: its start and end. */
  function FindSep(s: Text, from: nat): (r: Option<(nat, nat)>)
    ensures r.Some? ==> from <= r.value.0 && SepEnd(s, r.value.0) == Some(r.value.1)
    ensures r.Some? ==> forall k | from <= k < r.value.0 :: SepEnd(s, k).None?
    ensures r.None? ==> forall k | from <= k :: SepEnd(s, k).None?
    decreases |s| - from
  {
    if from >= |s| then None
    else
      match SepEnd(s, from)
      case Some(e) => Some((from, e))
      case None => FindSep(s, from + 1)
  }

  /** `s.split(/",\s*"/)`: the pieces between successive leftmost matches. */
  function SplitQuotes(s: Text): (r: seq<Text>)
    ensures |r| >= 1
    decreases |s|
  {
    match FindSep(s, 0)
    case None => [s]
    case Some((i, e)) => [s[..i]] + SplitQuotes(s[e..])
  }

  /** One piece after `.map(q => q.replace(/^"|"$/g, '').trim())`, as a list
      that is empty when `.filter(q => q.length > 0)` drops it. */
  function Clean(piece: Text): (r: seq<Text>)
    ensures |r| <= 1
    ensures forall i | 0 <= i < |r| :: |r[i]| > 0 && Trimmed(r[i])
  {
    var q := Trim(Unwrap(piece, Quote, Quote));
    if |q| > 0 then [q] else []
  }

  /** The map and the filter over all pieces. */
  function CleanAll(pieces: seq<Text>): (r: seq<Text>)
    ensures |r| <= |pieces|
    ensures forall i | 0 <= i < |r| :: |r[i]| > 0 && Trimmed(r[i])
  {
    if |pieces| == 0 then []
    else
      var head, rest := Clean(pieces[0]), CleanAll(pieces[1..]);
      CleanJoin(head, rest);
      head + rest
  }

  lemma CleanJoin(head: seq<Text>, rest: seq<Text>)
    requires forall i | 0 <= i < |head| :: |head[i]| > 0 && Trimmed(head[i])
    requires forall i | 0 <= i < |rest| :: |rest[i]| > 0 && Trimmed(rest[i])
    ensures forall i | 0 <= i < |head + rest| :: |(head + rest)[i]| > 0 && Trimmed((head + rest)[i])
  {
    forall i | 0 <= i < |head + rest|
      ensures |(head + rest)[i]| > 0 && Trimmed((head + rest)[i])
    {
      if i < |head| {
        assert (head + rest)[i] == head[i];
      } else {
        assert (head + rest)[i] == rest[i - |head|];
      }
    }
  }

  /** The key quotes read from the trimmed remainder of a `KEY_QUOTES:` line. */
  function KeyQuotes(field: Text): (r: seq<Text>)
    ensures forall i | 0 <= i < |r| :: |r[i]| > 0 && Trimmed(r[i])
  {
    CleanAll(SplitQuotes(Unwrap(field, LeftBracket, RightBracket)))
  }

  /** What separates the quotes of an array literal of strings. */
  const QuoteSep: Text := [Quote, Comma, Space, Quote]

  /** `qs.join(sep)`. */
  function Interleave(qs: seq<Text>, sep: Text): Text {
    if |qs| == 0 then [] else if |qs| == 1 then qs[0] else qs[0] + sep + Interleave(qs[1..], sep)
  }

  /** `["q1", "q2", ...]`: the quotes written as an array literal. */
  function QuoteList(qs: seq<Text>): Text {
    [LeftBracket, Quote] + Interleave(qs, QuoteSep) + [Quote, RightBracket]
  }

  /** A quote the array-literal form carries unambiguously. */
  predicate Quotable(q: Text) {
    |q| > 0 && Trimmed(q) && Quote !in q && q[0] != Comma
  }

  lemma UnwrapWrapped(x: Text, o: Unit, c: Unit)
    ensures Unwrap([o] + x + [c], o, c) == x
  {
    var s := [o] + x + [c];
    assert s[0] == o && s[|s| - 1] == c;
    assert s[1..|s| - 1] == x;
  }

  lemma {:induction false} FindSepAt(s: Text, from: nat, p: nat, e: nat)
    requires from <= p < |s| && SepEnd(s, p) == Some(e)
    requires forall k | from <= k < p :: SepEnd(s, k).None?
    ensures FindSep(s, from) == Some((p, e))
    decreases p - from
  {
    if from < p {
      FindSepAt(s, from + 1, p, e);
    }
  }

  lemma {:induction false} FindSepNone(s: Text, from: nat)
    requires forall k | from <= k < |s| :: SepEnd(s, k).None?
    ensures FindSep(s, from).None?
    decreases |s| - from
  {
    if from < |s| {
      FindSepNone(s, from + 1);
    }
  }

  /** No separator starts inside an opening quote (if any) and a quotable text. */
  lemma NoSepBefore(lead: Text, q: Text, tail: Text)
    requires lead == [] || lead == [Quote]
    requires Quotable(q)
    ensures forall k | 0 <= k < |lead| + |q| :: SepEnd(lead + q + tail, k).None?
  {
    var s := lead + q + tail;
    forall k | 0 <= k < |lead| + |q|
      ensures SepEnd(s, k).None?
    {
      if k < |lead| {
        assert s[k + 1] == q[0];
      } else {
        assert s[k] == q[k - |lead|];
      }
    }
  }

  /** The separator the array literal puts after a quote is matched. */
  lemma SepAfter(pre: Text, tail: Text)
    ensures SepEnd(pre + QuoteSep + tail, |pre|) == Some(|pre| + 4)
  {
    var s := pre + QuoteSep + tail;
    var p := |pre|;
    assert s[p] == Quote && s[p + 1] == Comma && s[p + 2] == Space && s[p + 3] == Quote;
    assert WhiteEnd(s, p + 3) == p + 3;
  }

  lemma UnwrapQuoted(lead: Text, q: Text, trail: Text)
    requires lead == [] || lead == [Quote]
    requires trail == [] || trail == [Quote]
    requires Quotable(q)
    ensures Unwrap(lead + q + trail, Quote, Quote) == q
  {
    var s := lead + q + trail;
    assert s[0] == if lead == [] then q[0] else Quote;
    assert s[|s| - 1] == if trail == [] then q[|q| - 1] else Quote;
    assert q[0] in q && q[|q| - 1] in q;
    assert s[|lead|..|lead| + |q|] == q;
  }

  lemma CleanQuoted(lead: Text, q: Text, trail: Text)
    requires lead == [] || lead == [Quote]
    requires trail == [] || trail == [Quote]
    requires Quotable(q)
    ensures Clean(lead + q + trail) == [q]
  {
    UnwrapQuoted(lead, q, trail);
    TrimOfTrimmed(q);
  }

  lemma CleanAllCons(x: Text, rest: seq<Text>)
    ensures CleanAll([x] + rest) == Clean(x) + CleanAll(rest)
  {
    assert ([x] + rest)[1..] == rest;
  }

  /** The pieces of the body of an array literal (with or without its
      opening quote) clean up to the quotes it was written from. */
  lemma {:induction false} CleanSplitBody(lead: Text, qs: seq<Text>)
    requires lead == [] || lead == [Quote]
    requires forall i | 0 <= i < |qs| :: Quotable(qs[i])
    ensures CleanAll(SplitQuotes(lead + Interleave(qs, QuoteSep) + [Quote])) == qs
    decreases |qs|
  {
    if |qs| == 0 {
      CleanSplitEmpty(lead);
    } else if |qs| == 1 {
      CleanSplitOne(lead, qs[0]);
    } else {
      CleanSplitBody([], qs[1..]);
      CleanSplitCombine(lead, qs);
    }
  }

  lemma CleanSplitCombine(lead: Text, qs: seq<Text>)
    requires lead == [] || lead == [Quote]
    requires |qs| >= 2 && Quotable(qs[0])
    requires CleanAll(SplitQuotes([] + Interleave(qs[1..], QuoteSep) + [Quote])) == qs[1..]
    ensures CleanAll(SplitQuotes(lead + Interleave(qs, QuoteSep) + [Quote])) == qs
  {
    CleanSplitStep(lead, qs);
    ConsTail(qs);
  }

  lemma CleanSplitStep(lead: Text, qs: seq<Text>)
    requires lead == [] || lead == [Quote]
    requires |qs| >= 2 && Quotable(qs[0])
    ensures CleanAll(SplitQuotes(lead + Interleave(qs, QuoteSep) + [Quote]))
      == [qs[0]] + CleanAll(SplitQuotes([] + Interleave(qs[1..], QuoteSep) + [Quote]))
  {
    var q := qs[0];
    var rest := Interleave(qs[1..], QuoteSep) + [Quote];
    assert [] + Interleave(qs[1..], QuoteSep) == Interleave(qs[1..], QuoteSep);
    assert lead + Interleave(qs, QuoteSep) + [Quote] == (lead + q) + QuoteSep + rest;
    SplitFirst(lead, q, rest);
  }

  lemma CleanSplitEmpty(lead: Text)
    requires lead == [] || lead == [Quote]
    ensures CleanAll(SplitQuotes(lead + Interleave([], QuoteSep) + [Quote])) == []
  {
    var s := lead + [Quote];
    assert lead + Interleave([], QuoteSep) + [Quote] == s;
    assert s[|s| - 1] == Quote;
    forall k | 0 <= k < |s|
      ensures SepEnd(s, k).None?
    {
      if k + 2 <= |s| {
        assert k + 1 == |s| - 1;
      }
    }
    FindSepNone(s, 0);
    assert SplitQuotes(s) == [s];
    assert Unwrap(s, Quote, Quote) == [];
  }

  lemma CleanSplitOne(lead: Text, q: Text)
    requires lead == [] || lead == [Quote]
    requires Quotable(q)
    ensures CleanAll(SplitQuotes(lead + Interleave([q], QuoteSep) + [Quote])) == [q]
  {
    var s := lead + q + [Quote];
    assert lead + Interleave([q], QuoteSep) + [Quote] == s;
    NoSepBefore(lead, q, [Quote]);
    FindSepNone(s, 0);
    assert SplitQuotes(s) == [s];
    CleanQuoted(lead, q, [Quote]);
  }

  /** The first separator of a body is the one after its first quote. */
  lemma SplitFirst(lead: Text, q: Text, rest: Text)
    requires lead == [] || lead == [Quote]
    requires Quotable(q)
    ensures CleanAll(SplitQuotes((lead + q) + QuoteSep + rest)) == [q] + CleanAll(SplitQuotes(rest))
  {
    var s := (lead + q) + QuoteSep + rest;
    var p := |lead| + |q|;
    NoSepBefore(lead, q, QuoteSep + rest);
    assert lead + q + (QuoteSep + rest) == s;
    SepAfter(lead + q, rest);
    FindSepAt(s, 0, p, p + 4);
    assert s[..p] == lead + q + [];
    assert s[p + 4..] == rest;
    assert SplitQuotes(s) == [s[..p]] + SplitQuotes(rest);
    CleanAllCons(s[..p], SplitQuotes(rest));
    CleanQuoted(lead, q, []);
  }

  /** Quotes written as an array literal are read back unchanged. */
  lemma KeyQuotesRoundTrip(qs: seq<Text>)
    requires forall i | 0 <= i < |qs| :: Quotable(qs[i])
    ensures KeyQuotes(QuoteList(qs)) == qs
  {
    var body := [Quote] + Interleave(qs, QuoteSep) + [Quote];
    assert QuoteList(qs) == [LeftBracket] + body + [RightBracket];
    UnwrapWrapped(body, LeftBracket, RightBracket);
    CleanSplitBody([Quote], qs);
  }

  // ---------------------------------------------------------------------
  // The line parser

  /** The fields set so far; `None` for a field no line has set. */
  datatype Fields = Fields(
    topic: Option<Text>,
    reasoning: Option<Text>,
    strength: Option<Text>,
    why: Option<Text>,
    quotes: Option<seq<Text>>)

  /** The trimmed text after the tag a line starts with. `replace(tag, '')`
      deletes the first occurrence of the tag, which is the leading one. */
  function Value(line: Text, tag: Text): Text
    requires StartsWith(line, tag)
  {
    Trim(line[|tag|..])
  }

  /** One turn of the loop over the lines: the first tag the line starts
      with, tried in `parseResponse`'s order (topic, reasoning, strength,
      why, quotes), sets its field. */
  function Step(f: Fields, lower: Unit -> Unit, line: Text): Fields {
    if StartsWith(line, TopicTag) then f.(topic := Some(Value(line, TopicTag)))
    else if StartsWith(line, ReasoningTag) then f.(reasoning := Some(Value(line, ReasoningTag)))
    else if StartsWith(line, StrengthTag) then f.(strength := Some(LowerText(lower, Value(line, StrengthTag))))
    else if StartsWith(line, WhyTag) then f.(why := Some(Value(line, WhyTag)))
    else if StartsWith(line, QuotesTag) then f.(quotes := Some(KeyQuotes(Value(line, QuotesTag))))
    else f
  }

  /** The loop over all lines, from an empty result. */
  function Scan(lines: seq<Text>, lower: Unit -> Unit): Fields {
    if |lines| == 0 then Fields(None, None, None, None, None)
    else Step(Scan(lines[..|lines| - 1], lower), lower, Last(lines))
  }

  /** A non-empty string, as JavaScript's truthiness tests it. */
  predicate Truthy(v: Option<Text>) {
    v.Some? && |v.value| > 0
  }

  /** `parseResponse`: `None` for the answer `NONE`; otherwise the fields the
      lines set, provided topic, strength and reason are non-empty and some
      line gave key quotes (an empty list of them is enough). */
  function ParseResponse(response: Text, chunk: Chunk, lower: Unit -> Unit): (r: Option<Opportunity>)
    ensures Trim(response) == NoneAnswer ==> r.None?
    ensures r.Some? ==> r.value.channelId == chunk.channelId && r.value.originalMessages == chunk.messages
    ensures r.Some? ==> |r.value.topic| > 0 && |r.value.strength| > 0 && |r.value.whyCompelling| > 0
    ensures r.Some? ==> |r.value.strengthReasoning| > 0
  {
    if Trim(response) == NoneAnswer then None
    else
      var f := Scan(Split(response, LineFeed), lower);
      var reasoning := if Truthy(f.reasoning) then f.reasoning.value else DefaultReasoning;
      if Truthy(f.topic) && Truthy(f.strength) && Truthy(f.why) && f.quotes.Some? then
        Some(Opportunity(f.topic.value, f.why.value, f.quotes.value, f.strength.value, reasoning,
                         chunk.channelId, chunk.messages))
      else None
  }

  // ---------------------------------------------------------------------
  // The last line with each tag wins

  /** The index of the last line starting with `tag`. */
  function LastTagged(lines: seq<Text>, tag: Text): (r: Option<nat>)
    ensures r.Some? ==> r.value < |lines| && StartsWith(lines[r.value], tag)
    ensures r.Some? ==> forall j | r.value < j < |lines| :: !StartsWith(lines[j], tag)
    ensures r.None? ==> forall j | 0 <= j < |lines| :: !StartsWith(lines[j], tag)
  {
    if |lines| == 0 then None
    else if StartsWith(Last(lines), tag) then Some(|lines| - 1)
    else LastTagged(lines[..|lines| - 1], tag)
  }

  /** The trimmed value of the last line starting with `tag`, if any. */
  function Tagged(lines: seq<Text>, tag: Text): (r: Option<Text>)
    ensures r.Some? <==> exists j | 0 <= j < |lines| :: StartsWith(lines[j], tag)
  {
    match LastTagged(lines, tag)
    case None => None
    case Some(i) => Some(Value(lines[i], tag))
  }

  lemma StartsWithAt(line: Text, tag: Text, k: nat)
    requires StartsWith(line, tag) && k < |tag|
    ensures line[k] == tag[k]
  {
    assert line[0..|tag|][k] == line[k];
  }

  /** A line starting with `t1` does not start with a tag that differs
      from `t1` at position `k`. */
  lemma DiffersAt(line: Text, t1: Text, t2: Text, k: nat)
    requires StartsWith(line, t1) && k < |t1| && k < |t2| && t1[k] != t2[k]
    ensures !StartsWith(line, t2)
  {
    StartsWithAt(line, t1, k);
  }

  lemma TagUnits()
    ensures TopicTag[0] == 0x54 && ReasoningTag[0] == 0x53 && StrengthTag[0] == 0x53
    ensures WhyTag[0] == 0x57 && QuotesTag[0] == 0x4B
    ensures ReasoningTag[8] == 0x5F && StrengthTag[8] == 0x3A
  {
  }

  /** No line starts with two of the tags. */
  lemma TagsDisjoint(line: Text)
    ensures StartsWith(line, ReasoningTag) ==> !StartsWith(line, TopicTag)
    ensures StartsWith(line, StrengthTag) ==> !StartsWith(line, TopicTag) && !StartsWith(line, ReasoningTag)
    ensures StartsWith(line, WhyTag) ==>
      !StartsWith(line, TopicTag) && !StartsWith(line, ReasoningTag) && !StartsWith(line, StrengthTag)
    ensures StartsWith(line, QuotesTag) ==>
      !StartsWith(line, TopicTag) && !StartsWith(line, ReasoningTag) && !StartsWith(line, StrengthTag)
      && !StartsWith(line, WhyTag)
  {
    assert TopicTag[0] == 0x54 && ReasoningTag[0] == 0x53 && StrengthTag[0] == 0x53;
    assert WhyTag[0] == 0x57 && QuotesTag[0] == 0x4B;
    assert ReasoningTag[8] == 0x5F && StrengthTag[8] == 0x3A;
    if StartsWith(line, TopicTag) { StartsWithAt(line, TopicTag, 0); }
    if StartsWith(line, ReasoningTag) { StartsWithAt(line, ReasoningTag, 0); StartsWithAt(line, ReasoningTag, 8); }
    if StartsWith(line, StrengthTag) { StartsWithAt(line, StrengthTag, 0); StartsWithAt(line, StrengthTag, 8); }
    if StartsWith(line, WhyTag) { StartsWithAt(line, WhyTag, 0); }
    if StartsWith(line, QuotesTag) { StartsWithAt(line, QuotesTag, 0); }
  }

  /** What one line does to each field. */
  lemma StepEffect(f: Fields, lower: Unit -> Unit, line: Text)
    ensures var g := Step(f, lower, line);
      && g.topic == (if StartsWith(line, TopicTag) then Some(Value(line, TopicTag)) else f.topic)
      && g.reasoning == (if StartsWith(line, ReasoningTag) then Some(Value(line, ReasoningTag)) else f.reasoning)
      && g.strength == (if StartsWith(line, StrengthTag) then Some(LowerText(lower, Value(line, StrengthTag))) else f.strength)
      && g.why == (if StartsWith(line, WhyTag) then Some(Value(line, WhyTag)) else f.why)
      && g.quotes == (if StartsWith(line, QuotesTag) then Some(KeyQuotes(Value(line, QuotesTag))) else f.quotes)
  {
    TagsDisjoint(line);
  }

  lemma TaggedSnoc(lines: seq<Text>, tag: Text)
    requires |lines| > 0
    ensures Tagged(lines, tag) ==
      if StartsWith(Last(lines), tag) then Some(Value(Last(lines), tag)) else Tagged(lines[..|lines| - 1], tag)
  {
  }

  /** Each field holds the value of the last line carrying its tag, whatever
      lines with other tags or no tag come between. */
  lemma {:induction false} ScanLastWins(lines: seq<Text>, lower: Unit -> Unit)
    ensures Scan(lines, lower).topic == Tagged(lines, TopicTag)
    ensures Scan(lines, lower).reasoning == Tagged(lines, ReasoningTag)
    ensures Scan(lines, lower).strength.Some? == Tagged(lines, StrengthTag).Some?
    ensures Scan(lines, lower).strength.Some? ==>
      Scan(lines, lower).strength.value == LowerText(lower, Tagged(lines, StrengthTag).value)
    ensures Scan(lines, lower).why == Tagged(lines, WhyTag)
    ensures Scan(lines, lower).quotes.Some? == Tagged(lines, QuotesTag).Some?
    ensures Scan(lines, lower).quotes.Some? ==>
      Scan(lines, lower).quotes.value == KeyQuotes(Tagged(lines, QuotesTag).value)
  {
    if |lines| > 0 {
      var p := lines[..|lines| - 1];
      ScanLastWins(p, lower);
      StepEffect(Scan(p, lower), lower, Last(lines));
      TaggedSnoc(lines, TopicTag);
      TaggedSnoc(lines, ReasoningTag);
      TaggedSnoc(lines, StrengthTag);
      TaggedSnoc(lines, WhyTag);
      TaggedSnoc(lines, QuotesTag);
    }
  }

  /** The answer yields an opportunity exactly when it is not `NONE` and the
      last `TOPIC:`, `STRENGTH:` and `WHY_COMPELLING:` lines carry text and
      some `KEY_QUOTES:` line exists; the opportunity is made of those last
      values, with the stock reasoning when none was given. */
  lemma ParseResponseIff(response: Text, chunk: Chunk, lower: Unit -> Unit)
    ensures var lines := Split(response, LineFeed);
      ParseResponse(response, chunk, lower).Some? <==>
        && Trim(response) != NoneAnswer
        && Truthy(Tagged(lines, TopicTag))
        && Truthy(Tagged(lines, StrengthTag))
        && Truthy(Tagged(lines, WhyTag))
        && Tagged(lines, QuotesTag).Some?
    ensures var lines := Split(response, LineFeed);
      var r := ParseResponse(response, chunk, lower);
      r.Some? ==>
        && r.value.topic == Tagged(lines, TopicTag).value
        && r.value.strength == LowerText(lower, Tagged(lines, StrengthTag).value)
        && r.value.whyCompelling == Tagged(lines, WhyTag).value
        && r.value.keyQuotes == KeyQuotes(Tagged(lines, QuotesTag).value)
        && r.value.strengthReasoning ==
             (if Truthy(Tagged(lines, ReasoningTag)) then Tagged(lines, ReasoningTag).value else DefaultReasoning)
  {
    ScanLastWins(Split(response, LineFeed), lower);
  }

  // ---------------------------------------------------------------------
  // Reading back a well-formed answer

  /** A line `TAG value`. */
  function TagLine(tag: Text, v: Text): Text {
    tag + [Space] + v
  }

  /** An answer laid out one field per line. */
  function Answer(topic: Text, strength: Text, reasoning: Text, why: Text, quotes: seq<Text>): Text {
    Join([TagLine(TopicTag, topic), TagLine(StrengthTag, strength), TagLine(ReasoningTag, reasoning),
          TagLine(WhyTag, why), TagLine(QuotesTag, QuoteList(quotes))], LineFeed)
  }

  /** A field value that fits on its line and survives the trim. */
  predicate OneLine(v: Text) {
    Trimmed(v) && LineFeed !in v
  }

  lemma {:induction false} InterleaveAvoids(qs: seq<Text>, sep: Text, u: Unit)
    requires u !in sep
    requires forall i | 0 <= i < |qs| :: u !in qs[i]
    ensures u !in Interleave(qs, sep)
    decreases |qs|
  {
    if |qs| > 1 {
      InterleaveAvoids(qs[1..], sep, u);
    }
  }

  lemma TagLineValue(tag: Text, v: Text)
    requires Trimmed(v)
    ensures StartsWith(TagLine(tag, v), tag)
    ensures Value(TagLine(tag, v), tag) == v
  {
    var line := TagLine(tag, v);
    assert line[..|tag|] == tag;
    assert line[|tag|..] == [Space] + v + [];
    TrimPadded([Space], v, []);
    TrimOfTrimmed(v);
  }

  /** A tagged line that no later line overrides gives the value. */
  lemma TaggedLast(lines: seq<Text>, tag: Text, i: nat)
    requires i < |lines| && StartsWith(lines[i], tag)
    requires forall j | i < j < |lines| :: !StartsWith(lines[j], tag)
    ensures Tagged(lines, tag) == Some(Value(lines[i], tag))
  {
  }

  lemma TagsPlain()
    ensures LineFeed !in TopicTag && LineFeed !in StrengthTag && LineFeed !in ReasoningTag
    ensures LineFeed !in WhyTag && LineFeed !in QuotesTag
    ensures NoneAnswer[0] != TopicTag[0]
  {
  }

  function AnswerLines(topic: Text, strength: Text, reasoning: Text, why: Text, quotes: seq<Text>): seq<Text> {
    [TagLine(TopicTag, topic), TagLine(StrengthTag, strength), TagLine(ReasoningTag, reasoning),
     TagLine(WhyTag, why), TagLine(QuotesTag, QuoteList(quotes))]
  }

  lemma AnswerSplits(topic: Text, strength: Text, reasoning: Text, why: Text, quotes: seq<Text>)
    requires LineFeed !in topic && LineFeed !in strength && LineFeed !in reasoning && LineFeed !in why
    requires forall i | 0 <= i < |quotes| :: LineFeed !in quotes[i]
    ensures Split(Answer(topic, strength, reasoning, why, quotes), LineFeed) == AnswerLines(topic, strength, reasoning, why, quotes)
  {
    var lines := AnswerLines(topic, strength, reasoning, why, quotes);
    TagsPlain();
    InterleaveAvoids(quotes, QuoteSep, LineFeed);
    assert LineFeed !in QuoteList(quotes);
    assert forall i | 0 <= i < |lines| :: LineFeed !in lines[i];
    SplitJoin(lines, LineFeed);
  }

  /** The array literal starts and ends with a bracket. */
  lemma QuoteListTrimmed(qs: seq<Text>)
    ensures Trimmed(QuoteList(qs))
  {
    var body := Interleave(qs, QuoteSep);
    var ql := QuoteList(qs);
    assert ql == [LeftBracket] + ([Quote] + body + [Quote]) + [RightBracket];
    assert ql[0] == LeftBracket;
    assert ql[|ql| - 1] == RightBracket;
  }

  lemma TagLineStarts(tag: Text, v: Text)
    ensures StartsWith(TagLine(tag, v), tag)
  {
    assert TagLine(tag, v)[..|tag|] == tag;
  }

  /** Every line of a laid-out answer starts with its own tag. */
  lemma AnswerLineTags(lines: seq<Text>, topic: Text, strength: Text, reasoning: Text, why: Text, quotes: seq<Text>)
    requires lines == AnswerLines(topic, strength, reasoning, why, quotes)
    ensures StartsWith(lines[0], TopicTag) && StartsWith(lines[1], StrengthTag)
    ensures StartsWith(lines[2], ReasoningTag) && StartsWith(lines[3], WhyTag)
    ensures StartsWith(lines[4], QuotesTag)
  {
    TagLineStarts(TopicTag, topic);
    TagLineStarts(StrengthTag, strength);
    TagLineStarts(ReasoningTag, reasoning);
    TagLineStarts(WhyTag, why);
    TagLineStarts(QuotesTag, QuoteList(quotes));
  }

  lemma AnswerTagged(topic: Text, strength: Text, reasoning: Text, why: Text, quotes: seq<Text>)
    requires Trimmed(topic) && Trimmed(strength) && Trimmed(reasoning) && Trimmed(why)
    ensures var lines := AnswerLines(topic, strength, reasoning, why, quotes);
      && Tagged(lines, TopicTag) == Some(topic)
      && Tagged(lines, StrengthTag) == Some(strength)
      && Tagged(lines, ReasoningTag) == Some(reasoning)
      && Tagged(lines, WhyTag) == Some(why)
      && Tagged(lines, QuotesTag) == Some(QuoteList(quotes))
  {
    var lines := AnswerLines(topic, strength, reasoning, why, quotes);
    var ql := QuoteList(quotes);
    QuoteListTrimmed(quotes);
    AnswerLineTags(lines, topic, strength, reasoning, why, quotes);
    AnswerTopic(lines, topic);
    AnswerStrength(lines, strength);
    AnswerReasoning(lines, reasoning);
    AnswerWhy(lines, why);
    AnswerQuotes(lines, ql);
  }

  lemma AnswerTopic(lines: seq<Text>, topic: Text)
    requires |lines| == 5 && lines[0] == TagLine(TopicTag, topic) && Trimmed(topic)
    requires StartsWith(lines[1], StrengthTag) && StartsWith(lines[2], ReasoningTag)
    requires StartsWith(lines[3], WhyTag) && StartsWith(lines[4], QuotesTag)
    ensures Tagged(lines, TopicTag) == Some(topic)
  {
    TagLineValue(TopicTag, topic);
    TagUnits();
    forall j | 0 < j < 5
      ensures !StartsWith(lines[j], TopicTag)
    {
      if j == 1 {
        DiffersAt(lines[1], StrengthTag, TopicTag, 0);
      } else if j == 2 {
        DiffersAt(lines[2], ReasoningTag, TopicTag, 0);
      } else if j == 3 {
        DiffersAt(lines[3], WhyTag, TopicTag, 0);
      } else if j == 4 {
        DiffersAt(lines[4], QuotesTag, TopicTag, 0);
      }
    }
    TaggedLast(lines, TopicTag, 0);
  }

  lemma AnswerStrength(lines: seq<Text>, strength: Text)
    requires |lines| == 5 && lines[1] == TagLine(StrengthTag, strength) && Trimmed(strength)
    requires StartsWith(lines[2], ReasoningTag) && StartsWith(lines[3], WhyTag)
    requires StartsWith(lines[4], QuotesTag)
    ensures Tagged(lines, StrengthTag) == Some(strength)
  {
    TagLineValue(StrengthTag, strength);
    TagUnits();
    forall j | 1 < j < 5
      ensures !StartsWith(lines[j], StrengthTag)
    {
      if j == 2 {
        DiffersAt(lines[2], ReasoningTag, StrengthTag, 8);
      } else if j == 3 {
        DiffersAt(lines[3], WhyTag, StrengthTag, 0);
      } else if j == 4 {
        DiffersAt(lines[4], QuotesTag, StrengthTag, 0);
      }
    }
    TaggedLast(lines, StrengthTag, 1);
  }

  lemma AnswerReasoning(lines: seq<Text>, reasoning: Text)
    requires |lines| == 5 && lines[2] == TagLine(ReasoningTag, reasoning) && Trimmed(reasoning)
    requires StartsWith(lines[3], WhyTag) && StartsWith(lines[4], QuotesTag)
    ensures Tagged(lines, ReasoningTag) == Some(reasoning)
  {
    TagLineValue(ReasoningTag, reasoning);
    TagUnits();
    forall j | 2 < j < 5
      ensures !StartsWith(lines[j], ReasoningTag)
    {
      if j == 3 {
        DiffersAt(lines[3], WhyTag, ReasoningTag, 0);
      } else if j == 4 {
        DiffersAt(lines[4], QuotesTag, ReasoningTag, 0);
      }
    }
    TaggedLast(lines, ReasoningTag, 2);
  }

  lemma AnswerWhy(lines: seq<Text>, why: Text)
    requires |lines| == 5 && lines[3] == TagLine(WhyTag, why) && Trimmed(why)
    requires StartsWith(lines[4], QuotesTag)
    ensures Tagged(lines, WhyTag) == Some(why)
  {
    TagLineValue(WhyTag, why);
    TagUnits();
    forall j | 3 < j < 5
      ensures !StartsWith(lines[j], WhyTag)
    {
      if j == 4 {
        DiffersAt(lines[4], QuotesTag, WhyTag, 0);
      }
    }
    TaggedLast(lines, WhyTag, 3);
  }

  lemma AnswerQuotes(lines: seq<Text>, ql: Text)
    requires |lines| == 5 && lines[4] == TagLine(QuotesTag, ql) && Trimmed(ql)
    ensures Tagged(lines, QuotesTag) == Some(ql)
  {
    TagLineValue(QuotesTag, ql);
    TaggedLast(lines, QuotesTag, 4);
  }

  lemma AnswerNotNone(topic: Text, strength: Text, reasoning: Text, why: Text, quotes: seq<Text>)
    ensures Trim(Answer(topic, strength, reasoning, why, quotes)) != NoneAnswer
  {
    var answer := Answer(topic, strength, reasoning, why, quotes);
    var lines := AnswerLines(topic, strength, reasoning, why, quotes);
    assert answer == lines[0] + [LineFeed] + Join(lines[1..], LineFeed);
    assert answer[0] == TopicTag[0];
    TagsPlain();
    TrimKeepsHead(answer);
  }

  /** An answer written one field per line is read back field for field;
      the strength comes back lower-cased and an empty reasoning is
      replaced by the stock one. */
  lemma AnswerRoundTrip(topic: Text, strength: Text, reasoning: Text, why: Text, quotes: seq<Text>,
                        chunk: Chunk, lower: Unit -> Unit)
    requires |topic| > 0 && |strength| > 0 && |why| > 0
    requires OneLine(topic) && OneLine(strength) && OneLine(reasoning) && OneLine(why)
    requires forall i | 0 <= i < |quotes| :: Quotable(quotes[i]) && LineFeed !in quotes[i]
    ensures ParseResponse(Answer(topic, strength, reasoning, why, quotes), chunk, lower) ==
      Some(Opportunity(topic, why, quotes, LowerText(lower, strength),
                       if |reasoning| > 0 then reasoning else DefaultReasoning,
                       chunk.channelId, chunk.messages))
  {
    var answer := Answer(topic, strength, reasoning, why, quotes);
    AnswerSplits(topic, strength, reasoning, why, quotes);
    AnswerTagged(topic, strength, reasoning, why, quotes);
    AnswerNotNone(topic, strength, reasoning, why, quotes);
    KeyQuotesRoundTrip(quotes);
    ParseResponseIff(answer, chunk, lower);
  }
}
