/**
 * Strings as the JavaScript runtime sees them: sequences of UTF-16 code
 * units. Lengths, indices, `trim`, `startsWith`, `includes`, `indexOf`,
 * `split` and the handful of regular-expression searches the program uses
 * are all defined on code units here.
 */
module Text {
  import opened Wrappers

  /** One UTF-16 code unit. */
  newtype Unit = x: int | 0 <= x < 0x1_0000

  type Text = seq<Unit>

  /** The code units of a string literal whose characters all lie in the
      Basic Multilingual Plane (one unit per character). */
  function Bmp(s: string): Text
    requires forall i | 0 <= i < |s| :: s[i] as int < 0x1_0000
  {
    seq(|s|, i requires 0 <= i < |s| => s[i] as int as Unit)
  }

  /** The UTF-16 encoding of one Unicode scalar value: a single unit inside
      the Basic Multilingual Plane, a surrogate pair above it. */
  function Encode(c: char): (r: Text)
    ensures |r| == 1 <==> (c as int) < 0x1_0000
    ensures |r| == 1 ==> r[0] as int == c as int
    ensures |r| == 2 ==> 0xD800 <= r[0] < 0xDC00 <= r[1] < 0xE000
    ensures |r| == 2 ==> (r[0] as int - 0xD800) * 0x400 + (r[1] as int - 0xDC00) + 0x1_0000 == c as int
  {
    var v := c as int;
    if v < 0x1_0000 then [v as Unit]
    else
      var w := v - 0x1_0000;
      [(0xD800 + w / 0x400) as Unit, (0xDC00 + w % 0x400) as Unit]
  }

  const Backtick: Unit := 0x60
  const LineFeed: Unit := 0x0A
  const Dot: Unit := 0x2E
  const Quote: Unit := 0x22

  /** The three backticks that open and close a fenced code block. */
  const Fence: Text := [Backtick, Backtick, Backtick]

  // ---------------------------------------------------------------------
  // White space and trimming

  /** JavaScript's WhiteSpace and LineTerminator code points (ECMA-262,
      sections 12.2 and 12.3): what `String.prototype.trim` removes and what
      the regular-expression class `\s` matches. Every one of them lies in
      the Basic Multilingual Plane, so each is a single code unit. */
  predicate IsWhite(u: Unit) {
    || 0x09 <= u <= 0x0D || u == 0x20 || u == 0xA0 || u == 0x1680
    || 0x2000 <= u <= 0x200A || u == 0x2028 || u == 0x2029 || u == 0x202F
    || u == 0x205F || u == 0x3000 || u == 0xFEFF
  }

  /** The code units the regular-expression `.` does not match. */
  predicate IsLineTerminator(u: Unit) {
    u == 0x0A || u == 0x0D || u == 0x2028 || u == 0x2029
  }

  predicate AllWhite(s: Text) {
    forall i | 0 <= i < |s| :: IsWhite(s[i])
  }

  /** No white space at either end. */
  predicate Trimmed(s: Text) {
    |s| > 0 ==> !IsWhite(s[0]) && !IsWhite(s[|s| - 1])
  }

  function TrimStart(s: Text): (r: Text)
    ensures |r| <= |s| && r == s[|s| - |r|..]
    ensures AllWhite(s[..|s| - |r|])
    ensures |r| > 0 ==> !IsWhite(r[0])
  {
    if |s| > 0 && IsWhite(s[0]) then TrimStart(s[1..]) else s
  }

  function TrimEnd(s: Text): (r: Text)
    ensures |r| <= |s| && r == s[..|r|]
    ensures AllWhite(s[|r|..])
    ensures |r| > 0 ==> !IsWhite(r[|r| - 1])
  {
    if |s| > 0 && IsWhite(s[|s| - 1]) then TrimEnd(s[..|s| - 1]) else s
  }

  /** `String.prototype.trim`: the text between the leading and the trailing
      run of white space. */
  function Trim(s: Text): (r: Text)
    ensures Trimmed(r) && |r| <= |s|
  {
    TrimEnd(TrimStart(s))
  }

  /** The trim is the slice between a white prefix and a white suffix. */
  lemma TrimBounds(s: Text) returns (a: nat, b: nat)
    ensures a <= b <= |s| && Trim(s) == s[a..b]
    ensures AllWhite(s[..a]) && AllWhite(s[b..])
  {
    var t := TrimStart(s);
    var r := TrimEnd(t);
    a := |s| - |t|;
    b := a + |r|;
    SliceOfSuffix(s, a, |r|);
  }

  lemma SliceOfSuffix(s: Text, a: nat, n: nat)
    requires a + n <= |s|
    ensures s[a..][..n] == s[a..a + n] && s[a..][n..] == s[a + n..]
  {
  }

  lemma {:induction false} TrimStartAt(s: Text, a: nat)
    requires a <= |s| && AllWhite(s[..a])
    requires a == |s| || !IsWhite(s[a])
    ensures TrimStart(s) == s[a..]
    decreases a
  {
    if a > 0 {
      assert IsWhite(s[..a][0]);
      assert s[1..][..a - 1] == s[1..a];
      TrimStartAt(s[1..], a - 1);
    }
  }

  lemma {:induction false} TrimEndAt(t: Text, b: nat)
    requires b <= |t| && AllWhite(t[b..])
    requires b == 0 || !IsWhite(t[b - 1])
    ensures TrimEnd(t) == t[..b]
    decreases |t| - b
  {
    if b < |t| {
      assert IsWhite(t[b..][|t| - 1 - b]);
      assert t[..|t| - 1][b..] == t[b..|t| - 1];
      TrimEndAt(t[..|t| - 1], b);
    }
  }

  lemma AllWhiteJoin(s: Text, a: nat)
    requires a <= |s| && AllWhite(s[..a]) && AllWhite(s[a..])
    ensures AllWhite(s)
  {
    forall i | 0 <= i < |s| ensures IsWhite(s[i]) {
      if i < a { assert s[..a][i] == s[i]; } else { assert s[a..][i - a] == s[i]; }
    }
  }

  lemma TrimEndSlice(s: Text, a: nat, b: nat)
    requires a < b <= |s| && AllWhite(s[b..]) && !IsWhite(s[b - 1])
    ensures TrimEnd(s[a..]) == s[a..b]
  {
    var t := s[a..];
    assert t[b - a..] == s[b..];
    assert t[b - a - 1] == s[b - 1];
    TrimEndAt(t, b - a);
  }

  /** A trimmed slice whose surroundings are all white space is the trim. */
  lemma {:induction false} TrimUnique(s: Text, a: nat, b: nat)
    requires a <= b <= |s|
    requires AllWhite(s[..a]) && AllWhite(s[b..]) && Trimmed(s[a..b])
    ensures Trim(s) == s[a..b]
  {
    if a < b {
      assert !IsWhite(s[a]) && !IsWhite(s[b - 1]) by {
        assert s[a..b][0] == s[a] && s[a..b][b - a - 1] == s[b - 1];
      }
      TrimStartAt(s, a);
      TrimEndSlice(s, a, b);
    } else {
      AllWhiteJoin(s, a);
      TrimStartAt(s, |s|);
    }
  }

  /** A text with no white space at either end is its own trim. */
  lemma TrimOfTrimmed(s: Text)
    requires Trimmed(s)
    ensures Trim(s) == s
  {
    assert s[..0] == [] && s[|s|..] == [] && s[0..|s|] == s;
    TrimUnique(s, 0, |s|);
  }

  /** A text that does not start with white space keeps its first unit. */
  lemma TrimKeepsHead(s: Text)
    requires |s| > 0 && !IsWhite(s[0])
    ensures |Trim(s)| > 0 && Trim(s)[0] == s[0]
  {
    TrimStartAt(s, 0);
    assert s[0..] == s;
  }

  lemma {:induction false} TrimIdempotent(s: Text)
    ensures Trim(Trim(s)) == Trim(s)
  {
    var r := Trim(s);
    assert r[..0] == [] && r[|r|..] == [] && r[0..|r|] == r;
    TrimUnique(r, 0, |r|);
  }

  lemma {:induction false} TrimStartPadded(p: Text, y: Text)
    requires AllWhite(p)
    ensures TrimStart(p + y) == TrimStart(y)
    decreases |p|
  {
    if |p| > 0 {
      assert IsWhite((p + y)[0]) by { assert (p + y)[0] == p[0]; }
      assert (p + y)[1..] == p[1..] + y;
      TrimStartPadded(p[1..], y);
    } else {
      assert p + y == y;
    }
  }

  lemma {:induction false} TrimEndPadded(y: Text, q: Text)
    requires AllWhite(q)
    ensures TrimEnd(y + q) == TrimEnd(y)
    decreases |q|
  {
    if |q| > 0 {
      assert IsWhite((y + q)[|y + q| - 1]) by { assert (y + q)[|y + q| - 1] == q[|q| - 1]; }
      assert (y + q)[..|y + q| - 1] == y + q[..|q| - 1];
      TrimEndPadded(y, q[..|q| - 1]);
    } else {
      assert y + q == y;
    }
  }

  lemma {:induction false} TrimStartOfAppend(y: Text, q: Text)
    ensures TrimStart(y + q) == if AllWhite(y) then TrimStart(q) else TrimStart(y) + q
    decreases |y|
  {
    if |y| > 0 {
      var yq := y + q;
      assert yq[0] == y[0];
      assert yq[1..] == y[1..] + q;
      TrimStartOfAppend(y[1..], q);
      AllWhiteCons(y);
    } else {
      assert y + q == q;
    }
  }

  lemma AllWhiteCons(y: Text)
    requires |y| > 0
    ensures AllWhite(y) <==> IsWhite(y[0]) && AllWhite(y[1..])
  {
    if IsWhite(y[0]) && AllWhite(y[1..]) {
      forall i | 0 <= i < |y| ensures IsWhite(y[i]) {
        if i > 0 { assert y[i] == y[1..][i - 1]; }
      }
    }
  }

  /** White space put in front of a text does not change its trim. */
  lemma TrimLeftPadded(p: Text, x: Text)
    requires AllWhite(p)
    ensures Trim(p + x) == Trim(x)
  {
    TrimStartPadded(p, x);
  }

  /** White space added around a text does not change its trim. */
  lemma {:induction false} TrimPadded(p: Text, x: Text, q: Text)
    requires AllWhite(p) && AllWhite(q)
    ensures Trim(p + x + q) == Trim(x)
  {
    assert p + x + q == p + (x + q);
    TrimStartPadded(p, x + q);
    TrimStartOfAppend(x, q);
    if AllWhite(x) {
      TrimStartAt(q, |q|);
      assert q[..|q|] == q;
      TrimStartAt(x, |x|);
      assert x[..|x|] == x;
    } else {
      TrimEndPadded(TrimStart(x), q);
    }
  }

  /** The end of the longest white-space run starting at `k`: where a
      greedy `\s*` stops. */
  function WhiteEnd(s: Text, k: nat): (r: nat)
    requires k <= |s|
    ensures k <= r <= |s|
    ensures forall j | k <= j < r :: IsWhite(s[j])
    ensures r == |s| || !IsWhite(s[r])
    decreases |s| - k
  {
    if k < |s| && IsWhite(s[k]) then WhiteEnd(s, k + 1) else k
  }

  // ---------------------------------------------------------------------
  // Searching

  /** `pat` occurs in `s` starting at index `i`. */
  predicate OccursAt(s: Text, pat: Text, i: int) {
    0 <= i && i + |pat| <= |s| && s[i..i + |pat|] == pat
  }

  predicate Contains(s: Text, pat: Text) {
    exists i | 0 <= i <= |s| :: OccursAt(s, pat, i)
  }

  /** `startsWith`. */
  predicate StartsWith(s: Text, pat: Text) {
    OccursAt(s, pat, 0)
  }

  /** The leftmost occurrence of `pat` at or after `from` (`indexOf(pat, from)`,
      and the leftmost match of a literal regular expression). */
  function IndexOfFrom(s: Text, pat: Text, from: nat): (r: Option<nat>)
    ensures r.Some? ==> from <= r.value && OccursAt(s, pat, r.value)
    ensures r.Some? ==> forall k | from <= k < r.value :: !OccursAt(s, pat, k)
    ensures r.None? ==> forall k | from <= k :: !OccursAt(s, pat, k)
    decreases |s| - from
  {
    if from + |pat| > |s| then None
    else if s[from..from + |pat|] == pat then Some(from)
    else IndexOfFrom(s, pat, from + 1)
  }

  function IndexOf(s: Text, pat: Text): (r: Option<nat>)
    ensures r.Some? <==> Contains(s, pat)
    ensures r.Some? ==> OccursAt(s, pat, r.value) && forall k | 0 <= k < r.value :: !OccursAt(s, pat, k)
  {
    IndexOfFrom(s, pat, 0)
  }

  /** The rightmost occurrence of `pat` starting at or before `k`. */
  function LastIndexUpTo(s: Text, pat: Text, k: int): (r: Option<nat>)
    ensures r.Some? ==> r.value <= k && OccursAt(s, pat, r.value)
    ensures r.Some? ==> forall j | r.value < j <= k :: !OccursAt(s, pat, j)
    ensures r.None? ==> forall j | j <= k :: !OccursAt(s, pat, j)
    decreases k
  {
    if k < 0 then None
    else if OccursAt(s, pat, k) then Some(k)
    else LastIndexUpTo(s, pat, k - 1)
  }

  /** The rightmost occurrence of `pat` in `s`. */
  function LastIndexOf(s: Text, pat: Text): (r: Option<nat>)
    ensures r.Some? <==> Contains(s, pat)
    ensures r.Some? ==> OccursAt(s, pat, r.value) && forall j :: OccursAt(s, pat, j) ==> j <= r.value
  {
    LastIndexUpTo(s, pat, |s| - |pat|)
  }

  /** The first index of the unit `u` in `s`. */
  function UnitIndex(s: Text, u: Unit): (r: nat)
    requires u in s
    ensures r < |s| && s[r] == u && u !in s[..r]
  {
    if s[0] == u then 0
    else
      assert u in s[1..] by { var k :| 0 <= k < |s| && s[k] == u; assert s[1..][k - 1] == u; }
      1 + UnitIndex(s[1..], u)
  }

  // ---------------------------------------------------------------------
  // Lower-casing

  /** `toLowerCase`, taken one code unit at a time through `lower`. */
  function LowerText(lower: Unit -> Unit, s: Text): (r: Text)
    ensures |r| == |s|
    ensures forall i | 0 <= i < |s| :: r[i] == lower(s[i])
  {
    seq(|s|, i requires 0 <= i < |s| => lower(s[i]))
  }

  // ---------------------------------------------------------------------
  // Case folding for the `i` flag

  /** The canonical form a non-Unicode case-insensitive JavaScript regular
      expression compares, restricted to what matters for ASCII patterns:
      ASCII lower-case letters fold to upper case and nothing else folds onto
      ASCII (ECMA-262, section 22.2.2.7.3, Canonicalize). */
  function FoldUnit(u: Unit): (r: Unit)
    ensures (r < 0x80) == (u < 0x80)
    ensures 0x61 <= r <= 0x7A ==> false
  {
    if 0x61 <= u <= 0x7A then u - 0x20 else u
  }

  function Fold(s: Text): (r: Text)
    ensures |r| == |s|
    ensures forall i | 0 <= i < |s| :: r[i] == FoldUnit(s[i])
  {
    seq(|s|, i requires 0 <= i < |s| => FoldUnit(s[i]))
  }

  /** An upper-case ASCII pattern occurs case-insensitively at `i`. */
  predicate OccursAtIgnoringCase(s: Text, pat: Text, i: int) {
    OccursAt(Fold(s), pat, i)
  }

  // ---------------------------------------------------------------------
  // Splitting on a single code unit

  /** `s.split(sep)` for a one-unit separator string. */
  function Split(s: Text, sep: Unit): (r: seq<Text>)
    ensures |r| >= 1
    ensures forall i | 0 <= i < |r| :: sep !in r[i]
    decreases |s|
  {
    if sep !in s then [s]
    else
      var i := UnitIndex(s, sep);
      [s[..i]] + Split(s[i + 1..], sep)
  }

  /** `parts.join(sep)`. */
  function Join(parts: seq<Text>, sep: Unit): Text
    requires |parts| >= 1
  {
    if |parts| == 1 then parts[0] else parts[0] + [sep] + Join(parts[1..], sep)
  }

  /** Joining the pieces of a split with the separator restores the text. */
  lemma {:induction false} JoinSplit(s: Text, sep: Unit)
    ensures Join(Split(s, sep), sep) == s
    decreases |s|
  {
    if sep in s {
      var i := UnitIndex(s, sep);
      var head, rest := s[..i], s[i + 1..];
      var parts := Split(s, sep);
      assert parts == [head] + Split(rest, sep);
      assert parts[0] == head && parts[1..] == Split(rest, sep);
      JoinSplit(rest, sep);
      assert Join(parts, sep) == head + [sep] + rest;
      assert s == head + [sep] + rest;
    }
  }

  /** The first piece of a split ends at the first separator. */
  lemma SplitCons(head: Text, sep: Unit, tail: Text)
    requires sep !in head
    ensures Split(head + [sep] + tail, sep) == [head] + Split(tail, sep)
  {
    var s := head + [sep] + tail;
    assert s[|head|] == sep;
    assert s[..|head|] == head;
    assert UnitIndex(s, sep) == |head|;
    assert s[|head| + 1..] == tail;
  }

  /** Splitting a join of separator-free pieces gives the pieces back. */
  lemma {:induction false} SplitJoin(parts: seq<Text>, sep: Unit)
    requires |parts| >= 1
    requires forall i | 0 <= i < |parts| :: sep !in parts[i]
    ensures Split(Join(parts, sep), sep) == parts
    decreases |parts|
  {
    if |parts| > 1 {
      var tail := Join(parts[1..], sep);
      assert Join(parts, sep) == parts[0] + [sep] + tail;
      SplitCons(parts[0], sep, tail);
      SplitJoin(parts[1..], sep);
      assert parts == [parts[0]] + parts[1..];
    } else {
      assert Join(parts, sep) == parts[0];
    }
  }

  // ---------------------------------------------------------------------
  // Decimal numerals

  predicate IsDigit(u: Unit) { 0x30 <= u <= 0x39 }

  /** The decimal numeral JavaScript's template literals print for a
      non-negative integer. */
  function Decimal(n: nat): (r: Text)
    ensures |r| >= 1
    ensures forall i | 0 <= i < |r| :: IsDigit(r[i])
    ensures |r| > 1 ==> r[0] != 0x30
  {
    if n < 10 then [(0x30 + n) as Unit] else Decimal(n / 10) + [(0x30 + n % 10) as Unit]
  }

  /** The value of a string of decimal digits. */
  function DecimalValue(t: Text): nat
    requires forall i | 0 <= i < |t| :: IsDigit(t[i])
  {
    if |t| == 0 then 0
    else
      var d := t[|t| - 1];
      assert IsDigit(d);
      10 * DecimalValue(t[..|t| - 1]) + (d as int - 0x30)
  }

  lemma {:induction false} DecimalRoundTrip(n: nat)
    ensures DecimalValue(Decimal(n)) == n
  {
    if n >= 10 {
      var d := Decimal(n);
      assert d[..|d| - 1] == Decimal(n / 10);
      DecimalRoundTrip(n / 10);
    }
  }
}
