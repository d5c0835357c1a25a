/**
 * The privacy filter (src/privacy/filter.ts): a stateless rule deciding
 * whether a message may be analysed, and the order-preserving filter built
 * on it.
 */
module Privacy {
  import opened Wrappers
  import opened Text
  import opened Messages
  import opened Seqs

  /** The configured privacy rules. `lower` is `toLowerCase` taken one code
      unit at a time; `blockedKeywords` are already trimmed and lower-cased
      by the configuration loader. */
  datatype Policy = Policy(lower: Unit -> Unit, offRecordMarker: Text, blockedKeywords: seq<Text>)

  /** The off-record marker the configuration fixes: U+1F512 LOCK. */
  const LockMarker: Text := Encode('\U{1F512}')

  /** Texts shorter than this are excluded. */
  const MinTextLength: nat := 10

  /** `t[start..start + len]` opens and closes with a fence, and every fence
      of `t` lies inside it: the span a greedy fence-to-fence match covers. */
  ghost predicate CodeSpan(t: Text, start: int, len: int) {
    && OccursAt(t, Fence, start) && OccursAt(t, Fence, start + len - 3)
    && forall k :: OccursAt(t, Fence, k) ==> start <= k <= start + len - 3
  }

  /** The length matched by the global greedy pattern /```[\s\S]*```/g. At
      most one match exists: it starts at the first fence and ends after the
      last fence that begins at least three units later. */
  function CodeLength(t: Text): (r: nat)
    ensures r == 0 <==> forall i, j | OccursAt(t, Fence, i) && OccursAt(t, Fence, j) :: j < i + 3
    ensures r > 0 ==> r >= 6 && exists i :: CodeSpan(t, i, r)
  {
    var first := IndexOf(t, Fence);
    if first.None? then 0
    else
      var i := first.value;
      var j := LastIndexOf(t, Fence).value;
      if j >= i + 3 then assert CodeSpan(t, i, j + 3 - i); j + 3 - i else 0
  }

  /** `text.includes(keyword)` for some keyword, checked in list order. */
  function AnyKeyword(text: Text, keywords: seq<Text>): (r: bool)
    ensures r <==> exists i | 0 <= i < |keywords| :: Contains(text, keywords[i])
  {
    if |keywords| == 0 then false
    else if IndexOf(text, keywords[0]).Some? then true
    else AnyKeyword(text, keywords[1..])
  }

  /** `shouldExcludeMessage`: the four exclusion rules on the lower-cased
      text, any one of which suffices. */
  predicate ShouldExclude(policy: Policy, m: Message)
  {
    var text := LowerText(policy.lower, m.text);
    if StartsWith(text, policy.offRecordMarker) then true
    else if AnyKeyword(text, policy.blockedKeywords) then true
    else if 2 * CodeLength(text) > |text| then true
    else |text| < MinTextLength
  }

  /** The exclusion decision as four independent rules. */
  lemma ExclusionRules(policy: Policy, m: Message)
    ensures var text := LowerText(policy.lower, m.text);
      ShouldExclude(policy, m) <==>
        || StartsWith(text, policy.offRecordMarker)
        || (exists i | 0 <= i < |policy.blockedKeywords| :: Contains(text, policy.blockedKeywords[i]))
        || 2 * CodeLength(text) > |m.text|
        || |m.text| < MinTextLength
  {
  }

  /** The decision reads nothing but the message text. */
  lemma ExclusionDependsOnTextOnly(policy: Policy, m1: Message, m2: Message)
    requires m1.text == m2.text
    ensures ShouldExclude(policy, m1) == ShouldExclude(policy, m2)
  {
  }

  /** Under the configured marker, a message opening with the lock emoji
      is excluded: lower-casing leaves the surrogate pair alone. */
  lemma LockedExcluded(policy: Policy, m: Message)
    requires policy.offRecordMarker == LockMarker
    requires forall u: Unit | 0xD800 <= u < 0xE000 :: policy.lower(u) == u
    requires |m.text| >= 2 && m.text[..2] == LockMarker
    ensures ShouldExclude(policy, m)
  {
    assert LockMarker == [0xD83D, 0xDD12];
    var text := LowerText(policy.lower, m.text);
    assert text[..2] == LockMarker;
  }

  /** An empty keyword, which a stray comma in the keyword list produces,
      excludes every message. */
  lemma EmptyKeywordExcludesAll(policy: Policy, m: Message)
    requires [] in policy.blockedKeywords
    ensures ShouldExclude(policy, m)
  {
    var text := LowerText(policy.lower, m.text);
    var i :| 0 <= i < |policy.blockedKeywords| && policy.blockedKeywords[i] == [];
    assert OccursAt(text, [], 0);
  }

  /** A text of exactly ten units that no other rule excludes is kept: the
      length rule is strict. */
  lemma TenUnitsIsLongEnough(policy: Policy, m: Message)
    requires |m.text| == 10
    requires !StartsWith(LowerText(policy.lower, m.text), policy.offRecordMarker)
    requires !AnyKeyword(LowerText(policy.lower, m.text), policy.blockedKeywords)
    requires 2 * CodeLength(LowerText(policy.lower, m.text)) <= 10
    ensures !ShouldExclude(policy, m)
  {
  }

  /** `filterMessages`. */
  function Filter(policy: Policy, ms: seq<Message>): (r: seq<Message>)
    ensures |r| <= |ms|
    ensures forall i | 0 <= i < |r| :: !ShouldExclude(policy, r[i])
    ensures forall m :: m in r <==> m in ms && !ShouldExclude(policy, m)
  {
    if |ms| == 0 then []
    else (if ShouldExclude(policy, ms[0]) then [] else [ms[0]]) + Filter(policy, ms[1..])
  }

  /** Filtering commutes with concatenation, so relative order is kept. */
  lemma {:induction false} FilterAppend(policy: Policy, a: seq<Message>, b: seq<Message>)
    ensures Filter(policy, a + b) == Filter(policy, a) + Filter(policy, b)
    decreases |a|
  {
    if |a| > 0 {
      assert (a + b)[1..] == a[1..] + b;
      FilterAppend(policy, a[1..], b);
    } else {
      assert a + b == b;
    }
  }

  /** A sequence is left unchanged exactly when nothing in it is excluded. */
  lemma {:induction false} FilterKeepsClean(policy: Policy, ms: seq<Message>)
    ensures Filter(policy, ms) == ms <==> forall i | 0 <= i < |ms| :: !ShouldExclude(policy, ms[i])
    decreases |ms|
  {
    if |ms| > 0 {
      FilterKeepsClean(policy, ms[1..]);
      if ShouldExclude(policy, ms[0]) {
        assert |Filter(policy, ms)| < |ms|;
      } else {
        ConsTail(ms);
      }
    }
  }

  lemma FilterIdempotent(policy: Policy, ms: seq<Message>)
    ensures Filter(policy, Filter(policy, ms)) == Filter(policy, ms)
  {
    FilterKeepsClean(policy, Filter(policy, ms));
  }
}
