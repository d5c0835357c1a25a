/**
 * The splitter of the language model's drafts (`parseDrafts` in
 * src/drafts/draftGenerator.ts). The answer holds a LinkedIn post after a
 * `LINKEDIN:` marker and a post for X after an `X:` marker, both found
 * case-insensitively.
 */
module Drafts {
  import opened Wrappers
  import opened Text

  /** `LINKEDIN:` */
  const LinkedInTag: Text := [0x4C, 0x49, 0x4E, 0x4B, 0x45, 0x44, 0x49, 0x4E, 0x3A]
  /** `X:` */
  const XTag: Text := [0x58, 0x3A]

  datatype Drafts = Drafts(linkedIn: Text, x: Text)

  /** The first case-insensitive occurrence of an upper-case marker at or
      after `from`. */
  function FindMarker(s: Text, tag: Text, from: nat): (r: Option<nat>)
    ensures r.Some? ==> from <= r.value && OccursAtIgnoringCase(s, tag, r.value)
    ensures r.Some? ==> forall k | from <= k < r.value :: !OccursAtIgnoringCase(s, tag, k)
    ensures r.None? ==> forall k | from <= k :: !OccursAtIgnoringCase(s, tag, k)
  {
    IndexOfFrom(Fold(s), tag, from)
  }

  /** Where the lazy LinkedIn body stops: the first `X:` at or after
      `from`, or the end. */
  function XStop(s: Text, from: nat): (r: nat)
    requires from <= |s|
    ensures from <= r <= |s|
    ensures forall k | from <= k && k + |XTag| <= r :: !OccursAtIgnoringCase(s, XTag, k)
  {
    match FindMarker(s, XTag, from) case Some(k) => k case None => |s|
  }

  /** `parseDrafts`. The first regular expression,
      `/LINKEDIN:\s*([\s\S]*?)(?=X:|$)/i`, matches from the first marker
      `LINKEDIN:`; its group starts where the greedy `\s*` stops and the lazy
      body ends at the first `X:` from there, or at the end. The second,
      `/X:\s*([\s\S]*?)$/i`, takes everything after the first `X:` and the
      white space that follows it. Both groups are trimmed. */
  function ParseDrafts(response: Text): (r: Option<Drafts>)
    ensures r.None? <==>
      (forall k :: !OccursAtIgnoringCase(response, LinkedInTag, k)) ||
      (forall k :: !OccursAtIgnoringCase(response, XTag, k))
    ensures r.Some? ==> Trimmed(r.value.linkedIn) && Trimmed(r.value.x)
  {
    var li := FindMarker(response, LinkedInTag, 0);
    var xi := FindMarker(response, XTag, 0);
    if li.None? || xi.None? then None
    else Some(Groups(response, li.value, xi.value))
  }

  /** The two trimmed groups, once the markers are found at `li` and `xi`. */
  function Groups(response: Text, li: nat, xi: nat): (r: Drafts)
    requires li + |LinkedInTag| <= |response| && xi + |XTag| <= |response|
    ensures Trimmed(r.linkedIn) && Trimmed(r.x)
  {
    var start := WhiteEnd(response, li + |LinkedInTag|);
    var stop := XStop(response, start);
    var xStart := WhiteEnd(response, xi + |XTag|);
    Drafts(Trim(response[start..stop]), Trim(response[xStart..]))
  }

  /** No white space folds onto the `X` a marker starts with. */
  lemma WhiteIsNoMarker(s: Text, tag: Text, k: nat)
    requires |tag| > 0 && tag[0] == 0x58
    requires k < |s| && IsWhite(s[k])
    ensures !OccursAtIgnoringCase(s, tag, k)
  {
  }

  /** Skipping white space does not skip an `X:` marker. */
  lemma {:induction false} FindMarkerSkipsWhite(s: Text, a: nat)
    requires a <= |s|
    ensures FindMarker(s, XTag, a) == FindMarker(s, XTag, WhiteEnd(s, a))
    decreases |s| - a
  {
    if a < |s| && IsWhite(s[a]) {
      WhiteIsNoMarker(s, XTag, a);
      FindMarkerSkipsWhite(s, a + 1);
    }
  }

  lemma XStopSkipsWhite(s: Text, a: nat)
    requires a <= |s|
    ensures XStop(s, a) == XStop(s, WhiteEnd(s, a))
  {
    FindMarkerSkipsWhite(s, a);
  }

  /** White space skipped before a slice does not change its trim. */
  lemma TrimSkipsWhite(s: Text, a: nat, b: nat)
    requires a <= b <= |s| && WhiteEnd(s, a) <= b
    ensures Trim(s[a..b]) == Trim(s[WhiteEnd(s, a)..b])
  {
    var w := WhiteEnd(s, a);
    assert s[a..b] == s[a..w] + s[w..b] + [];
    assert AllWhite(s[a..w]) by {
      forall j | 0 <= j < w - a ensures IsWhite(s[a..w][j]) { assert s[a..w][j] == s[a + j]; }
    }
    TrimPadded(s[a..w], s[w..b], []);
  }

  /** Folding commutes with slicing. */
  lemma FoldSlice(s: Text, i: nat, j: nat)
    requires i <= j <= |s|
    ensures Fold(s[i..j]) == Fold(s)[i..j]
  {
  }

  lemma TrimSkipsWhiteToEnd(s: Text, a: nat)
    requires a <= |s|
    ensures Trim(s[a..]) == Trim(s[WhiteEnd(s, a)..])
  {
    var w := WhiteEnd(s, a);
    var head, rest := s[a..w], s[w..];
    assert s[a..] == head + rest;
    assert AllWhite(head) by {
      forall j | 0 <= j < w - a ensures IsWhite(head[j]) { assert head[j] == s[a + j]; }
    }
    TrimLeftPadded(head, rest);
  }

  /** A case-insensitive occurrence inside a slice is one in the whole. */
  lemma SliceOccurs(s: Text, i: nat, j: nat, tag: Text, k: int)
    requires i <= j <= |s| && OccursAtIgnoringCase(s[i..j], tag, k)
    ensures OccursAtIgnoringCase(s, tag, i + k) && i + k + |tag| <= j
  {
    FoldSlice(s, i, j);
    assert Fold(s[i..j])[k..k + |tag|] == Fold(s)[i + k..i + k + |tag|];
  }

  /** A slice free of the marker between its ends has no marker at all. */
  lemma SliceAvoids(s: Text, i: nat, j: nat, tag: Text)
    requires i <= j <= |s|
    requires forall k | i <= k && k + |tag| <= j :: !OccursAtIgnoringCase(s, tag, k)
    ensures forall k :: !OccursAtIgnoringCase(s[i..j], tag, k)
  {
    forall k | OccursAtIgnoringCase(s[i..j], tag, k)
      ensures false
    {
      SliceOccurs(s, i, j, tag, k);
    }
  }

  /** Trimming text free of a marker leaves it free of the marker. */
  lemma TrimAvoids(s: Text, tag: Text)
    requires forall k :: !OccursAtIgnoringCase(s, tag, k)
    ensures forall k :: !OccursAtIgnoringCase(Trim(s), tag, k)
  {
    var a, b := TrimBounds(s);
    SliceAvoids(s, a, b, tag);
  }

  /** The positions the groups are cut at. */
  lemma GroupsParts(response: Text, li: nat, xi: nat) returns (start: nat, stop: nat, xStart: nat)
    requires li + |LinkedInTag| <= |response| && xi + |XTag| <= |response|
    ensures start <= stop <= |response| && xStart <= |response|
    ensures start == WhiteEnd(response, li + |LinkedInTag|) && stop == XStop(response, start)
    ensures xStart == WhiteEnd(response, xi + |XTag|)
    ensures Groups(response, li, xi) == Drafts(Trim(response[start..stop]), Trim(response[xStart..]))
  {
    start := WhiteEnd(response, li + |LinkedInTag|);
    stop := XStop(response, start);
    xStart := WhiteEnd(response, xi + |XTag|);
  }

  /** The groups without the white space the patterns skip. */
  lemma GroupsReference(response: Text, li: nat, xi: nat)
    requires li + |LinkedInTag| <= |response| && xi + |XTag| <= |response|
    ensures var a, b := li + |LinkedInTag|, xi + |XTag|;
      && a <= XStop(response, a)
      && Groups(response, li, xi).linkedIn == Trim(response[a..XStop(response, a)])
      && Groups(response, li, xi).x == Trim(response[b..])
  {
    GroupsLinkedIn(response, li, xi);
    GroupsX(response, li, xi);
  }

  lemma GroupsLinkedIn(response: Text, li: nat, xi: nat)
    requires li + |LinkedInTag| <= |response| && xi + |XTag| <= |response|
    ensures var a := li + |LinkedInTag|;
      && a <= XStop(response, a)
      && Groups(response, li, xi).linkedIn == Trim(response[a..XStop(response, a)])
  {
    var a := li + |LinkedInTag|;
    SkipWhiteBefore(response, a, XStop(response, WhiteEnd(response, a)));
  }

  lemma GroupsX(response: Text, li: nat, xi: nat)
    requires li + |LinkedInTag| <= |response| && xi + |XTag| <= |response|
    ensures Groups(response, li, xi).x == Trim(response[xi + |XTag|..])
  {
    TrimSkipsWhiteToEnd(response, xi + |XTag|);
  }

  /** The LinkedIn group does not depend on the white space after the marker. */
  lemma SkipWhiteBefore(s: Text, a: nat, stop: nat)
    requires a <= |s| && stop == XStop(s, WhiteEnd(s, a))
    ensures a <= XStop(s, a) == stop && WhiteEnd(s, a) <= stop
    ensures Trim(s[a..stop]) == Trim(s[WhiteEnd(s, a)..stop])
  {
    XStopSkipsWhite(s, a);
    TrimSkipsWhite(s, a, stop);
  }

  /** The drafts are the trimmed text after the first `LINKEDIN:` up to the
      next `X:` (or the end), and the trimmed text after the first `X:`;
      the white space the patterns skip makes no difference. */
  lemma ParseDraftsReference(response: Text)
    requires ParseDrafts(response).Some?
    ensures var a := FindMarker(response, LinkedInTag, 0).value + |LinkedInTag|;
      var b := FindMarker(response, XTag, 0).value + |XTag|;
      && a <= XStop(response, a) && b <= |response|
      && ParseDrafts(response).value.linkedIn == Trim(response[a..XStop(response, a)])
      && ParseDrafts(response).value.x == Trim(response[b..])
  {
    var li := FindMarker(response, LinkedInTag, 0).value;
    var xi := FindMarker(response, XTag, 0).value;
    assert ParseDrafts(response).value == Groups(response, li, xi);
    GroupsReference(response, li, xi);
  }

  /** The LinkedIn draft never contains `x:` in any case: the first one
      ends it. */
  lemma LinkedInHasNoX(response: Text)
    requires ParseDrafts(response).Some?
    ensures forall k :: !OccursAtIgnoringCase(ParseDrafts(response).value.linkedIn, XTag, k)
  {
    var li := FindMarker(response, LinkedInTag, 0).value;
    var xi := FindMarker(response, XTag, 0).value;
    assert ParseDrafts(response).value == Groups(response, li, xi);
    var start, stop, xStart := GroupsParts(response, li, xi);
    SliceAvoids(response, start, stop, XTag);
    TrimAvoids(response[start..stop], XTag);
  }

  // ---------------------------------------------------------------------
  // The answer shape the parser reads back

  /** `LINKEDIN: ` */
  const LinkedInHead: Text := LinkedInTag + [0x20]
  /** A blank line, then `X: ` */
  const XHead: Text := [LineFeed, LineFeed] + XTag + [0x20]

  /** An answer laid out as the drafting prompt asks: the LinkedIn post
      after its marker, a blank line, then the post for X after its own. */
  function Render(d: Drafts): (r: Text)
    ensures |r| == |LinkedInHead| + |d.linkedIn| + |XHead| + |d.x|
  {
    LinkedInHead + d.linkedIn + XHead + d.x
  }

  lemma MarkerUnits()
    ensures LinkedInTag == [0x4C, 0x49, 0x4E, 0x4B, 0x45, 0x44, 0x49, 0x4E, 0x3A]
    ensures XTag == [0x58, 0x3A]
    ensures LinkedInHead == LinkedInTag + [0x20]
    ensures XHead == [LineFeed, LineFeed] + XTag + [0x20]
  {
  }

  /** What an `X:` marker looks like unit by unit. */
  lemma MarkerAt(s: Text, k: int)
    requires OccursAtIgnoringCase(s, XTag, k)
    ensures 0 <= k && k + 2 <= |s| && FoldUnit(s[k]) == 0x58 && FoldUnit(s[k + 1]) == 0x3A
  {
    MarkerUnits();
    assert Fold(s)[k..k + 2][0] == Fold(s)[k] && Fold(s)[k..k + 2][1] == Fold(s)[k + 1];
  }

  /** An occurrence lying inside a slice is one in the slice. */
  lemma OccursInSlice(s: Text, i: nat, j: nat, tag: Text, k: int)
    requires i <= k && k + |tag| <= j <= |s| && OccursAtIgnoringCase(s, tag, k)
    ensures OccursAtIgnoringCase(s[i..j], tag, k - i)
  {
    FoldSlice(s, i, j);
    assert Fold(s[i..j])[k - i..k - i + |tag|] == Fold(s)[k..k + |tag|];
  }

  /** The units of a rendered answer, region by region. */
  lemma RenderUnits(d: Drafts)
    ensures var s, n := Render(d), |d.linkedIn|;
      && s[..9] == LinkedInTag && s[9] == 0x20
      && s[10..10 + n] == d.linkedIn
      && s[10 + n] == LineFeed && s[11 + n] == LineFeed
      && s[12 + n..14 + n] == XTag && s[14 + n] == 0x20
      && s[15 + n..] == d.x
  {
    MarkerUnits();
    var s, n := Render(d), |d.linkedIn|;
    assert s == LinkedInHead + (d.linkedIn + (XHead + d.x));
  }

  /** The first marker at or after `from` is the one at `p` when none
      comes between. */
  lemma FindMarkerIs(s: Text, tag: Text, from: nat, p: nat)
    requires from <= p && OccursAtIgnoringCase(s, tag, p)
    requires forall k | from <= k < p :: !OccursAtIgnoringCase(s, tag, k)
    ensures FindMarker(s, tag, from) == Some(p)
  {
  }

  /** No `X:` starts before the one the layout puts after the LinkedIn post. */
  lemma NoXBefore(s: Text, l: Text)
    requires 12 + |l| <= |s| && s[..9] == LinkedInTag && s[9] == 0x20
    requires s[10..10 + |l|] == l && s[10 + |l|] == LineFeed && s[11 + |l|] == LineFeed
    requires forall j :: !OccursAtIgnoringCase(l, XTag, j)
    ensures forall k | 0 <= k < 12 + |l| :: !OccursAtIgnoringCase(s, XTag, k)
  {
    MarkerUnits();
    forall k | 0 <= k < 12 + |l| && OccursAtIgnoringCase(s, XTag, k)
      ensures false
    {
      MarkerAt(s, k);
      if 10 <= k && k + 2 <= 10 + |l| {
        OccursInSlice(s, 10, 10 + |l|, XTag, k);
      }
    }
  }

  /** In a rendered answer whose LinkedIn post has no `X:`, the first `X:`
      is the one the layout puts there. */
  lemma RenderFirstX(d: Drafts)
    requires forall k :: !OccursAtIgnoringCase(d.linkedIn, XTag, k)
    ensures FindMarker(Render(d), XTag, 0) == Some(12 + |d.linkedIn|)
    ensures FindMarker(Render(d), XTag, 9) == Some(12 + |d.linkedIn|)
  {
    var s, n := Render(d), |d.linkedIn|;
    RenderUnits(d);
    assert OccursAtIgnoringCase(s, XTag, 12 + n) by {
      FoldSlice(s, 12 + n, 14 + n);
      MarkerUnits();
    }
    NoXBefore(s, d.linkedIn);
    FindMarkerIs(s, XTag, 0, 12 + n);
    FindMarkerIs(s, XTag, 9, 12 + n);
  }

  lemma RenderFirstLinkedIn(d: Drafts)
    ensures FindMarker(Render(d), LinkedInTag, 0) == Some(0)
  {
    var s := Render(d);
    RenderUnits(d);
    FoldSlice(s, 0, 9);
    assert s[0..9] == s[..9];
    MarkerUnits();
    FindMarkerIs(s, LinkedInTag, 0, 0);
  }

  /** The LinkedIn region, padded by the layout's white space, trims to the post. */
  lemma RenderLinkedInSlice(d: Drafts)
    requires Trimmed(d.linkedIn)
    ensures 12 + |d.linkedIn| <= |Render(d)|
    ensures Trim(Render(d)[9..12 + |d.linkedIn|]) == d.linkedIn
  {
    var s, n := Render(d), |d.linkedIn|;
    RenderUnits(d);
    var head, tail := s[9..10], s[10 + n..12 + n];
    assert head == [0x20];
    assert tail == [LineFeed, LineFeed];
    assert s[9..12 + n] == head + s[10..10 + n] + tail;
    TrimPadded(head, d.linkedIn, tail);
    TrimOfTrimmed(d.linkedIn);
  }

  /** The region after the `X:` marker trims to the post for X. */
  lemma RenderXSlice(d: Drafts)
    requires Trimmed(d.x)
    ensures 14 + |d.linkedIn| <= |Render(d)|
    ensures Trim(Render(d)[14 + |d.linkedIn|..]) == d.x
  {
    var s, n := Render(d), |d.linkedIn|;
    RenderUnits(d);
    var head := s[14 + n..15 + n];
    assert head == [0x20];
    assert s[14 + n..] == head + s[15 + n..];
    TrimLeftPadded(head, d.x);
    TrimOfTrimmed(d.x);
  }

  /** Rendering then parsing gives the drafts back, when both are trimmed
      and the LinkedIn post has no `X:` to cut it short. */
  lemma RenderRoundTrip(d: Drafts)
    requires Trimmed(d.linkedIn) && Trimmed(d.x)
    requires forall k :: !OccursAtIgnoringCase(d.linkedIn, XTag, k)
    ensures ParseDrafts(Render(d)) == Some(d)
  {
    var s, n := Render(d), |d.linkedIn|;
    RenderFirstLinkedIn(d);
    RenderFirstX(d);
    assert OccursAtIgnoringCase(s, LinkedInTag, 0) && OccursAtIgnoringCase(s, XTag, 12 + n);
    ParseDraftsReference(s);
    RenderLinkedInSlice(d);
    RenderXSlice(d);
  }
}
