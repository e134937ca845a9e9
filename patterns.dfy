/**
 * The regular expressions of shape `head\s+(C+)`, where `head` is a literal
 * label and `C` a character class, as Python's `re.search` runs them: the
 * leftmost position at which the expression matches wins; there, `\s+` first
 * takes every white-space character it can and gives them back one at a time
 * until `C+` can match at least one character, and `C+` then takes every
 * class character it can.
 */
module Patterns {

  import opened Wrappers
  import opened Text

  /** `\s`, `\d` and the bracketed classes of the header and item patterns. */
  datatype CharClass =
    | Space         // \s
    | Digit         // \d
    | DateChar      // [\d/]
    | DateTimeChar  // [\d/:\s]
    | AmountChar    // [\d,.]

  predicate InClass(c: CharClass, ch: char) {
    match c
    case Space => IsSpace(ch)
    case Digit => IsDigit(ch)
    case DateChar => IsDigit(ch) || ch == '/'
    case DateTimeChar => IsDigit(ch) || ch == '/' || ch == ':' || IsSpace(ch)
    case AmountChar => IsDigit(ch) || ch == ',' || ch == '.'
  }

  /** Every character of `s[lo..hi]` is in the class. */
  predicate AllIn(c: CharClass, s: string, lo: nat, hi: nat)
    requires lo <= hi <= |s|
  {
    forall i :: lo <= i < hi ==> InClass(c, s[i])
  }

  /** The length of the longest run of class characters starting at `i`:
      what a greedy `C+` or `\s+` consumes there. */
  function RunLength(c: CharClass, s: string, i: nat): (n: nat)
    requires i <= |s|
    ensures i + n <= |s|
    decreases |s| - i
  {
    if i < |s| && InClass(c, s[i]) then 1 + RunLength(c, s, i + 1) else 0
  }

  /** The run is all class characters and stops at one outside the class
      (or at the end of the text). */
  lemma {:induction false} RunLengthSpec(c: CharClass, s: string, i: nat)
    requires i <= |s|
    ensures var n := RunLength(c, s, i);
      AllIn(c, s, i, i + n) && (i + n < |s| ==> !InClass(c, s[i + n]))
    decreases |s| - i
  {
    if i < |s| && InClass(c, s[i]) {
      RunLengthSpec(c, s, i + 1);
    }
  }

  /** One match: the label at `at`, then `gap` white-space characters, then
      the `len` characters of the capture group. */
  datatype Span = Span(at: nat, gap: nat, len: nat)

  /** `\s+(C+)` can match `s` at `i` with `\s+` taking `gap` characters and
      `C+` taking `len`. */
  ghost predicate Fits(c: CharClass, s: string, i: nat, gap: nat, len: nat) {
    && i + gap + len <= |s|
    && 1 <= gap && 1 <= len
    && AllIn(Space, s, i, i + gap)
    && AllIn(c, s, i + gap, i + gap + len)
  }

  /** `head\s+(C+)` can match `s` at `p` with `\s+` taking `gap` characters
      and `C+` taking `len`. */
  ghost predicate Accepts(head: string, c: CharClass, s: string, p: nat, gap: nat, len: nat) {
    OccursAt(s, head, p) && Fits(c, s, p + |head|, gap, len)
  }

  /** The class characters from `i` on are exactly the first
      `RunLength(c, s, i)` ones. */
  lemma {:induction false} AllInRun(c: CharClass, s: string, i: nat, k: nat)
    requires i + k <= |s|
    ensures AllIn(c, s, i, i + k) <==> k <= RunLength(c, s, i)
  {
    var n := RunLength(c, s, i);
    RunLengthSpec(c, s, i);
    if k > n {
      assert !InClass(c, s[i + n]);
    }
  }

  /** `\s+(C+)` fits at `i` exactly when the gap is within the white-space
      run there and the capture within the class run after the gap. */
  lemma FitsIff(c: CharClass, s: string, i: nat, gap: nat, len: nat)
    requires i <= |s|
    ensures Fits(c, s, i, gap, len) <==>
      1 <= gap <= RunLength(Space, s, i) && 1 <= len <= RunLength(c, s, i + gap)
  {
    if i + gap <= |s| {
      AllInRun(Space, s, i, gap);
      if i + gap + len <= |s| {
        AllInRun(c, s, i + gap, len);
      }
    }
  }

  /** The backtracking of `\s+`: try a gap of `gap` characters, then fewer. */
  function TryGap(head: string, c: CharClass, s: string, p: nat, gap: nat): Option<Span>
    requires OccursAt(s, head, p) && 1 <= gap <= RunLength(Space, s, p + |head|)
    decreases gap
  {
    var n := RunLength(c, s, p + |head| + gap);
    if n >= 1 then Some(Span(p, gap, n))
    else if gap == 1 then None
    else TryGap(head, c, s, p, gap - 1)
  }

  /** The gap `TryGap` settles on is the widest one up to `gap` after which
      the class run is non-empty, and the capture is that whole run; there
      is none when every such run is empty. */
  lemma {:induction false} TryGapSpec(head: string, c: CharClass, s: string, p: nat, gap: nat)
    requires OccursAt(s, head, p) && 1 <= gap <= RunLength(Space, s, p + |head|)
    ensures var m := TryGap(head, c, s, p, gap); var i := p + |head|;
      && (m.Some? ==> m.value.at == p && 1 <= m.value.gap <= gap)
      && (m.Some? ==> 1 <= m.value.len == RunLength(c, s, i + m.value.gap))
      && (m.Some? ==> forall q: nat :: i + m.value.gap < q <= i + gap ==> RunLength(c, s, q) == 0)
      && (m.None? ==> forall q: nat :: i < q <= i + gap ==> RunLength(c, s, q) == 0)
    decreases gap
  {
    var n := RunLength(c, s, p + |head| + gap);
    if n == 0 && gap > 1 {
      TryGapSpec(head, c, s, p, gap - 1);
    }
  }

  /** The match at position `p`, if the expression matches there. */
  function MatchAt(head: string, c: CharClass, s: string, p: nat): Option<Span>
    requires p <= |s|
  {
    if !OccursAt(s, head, p) then None
    else
      var k := RunLength(Space, s, p + |head|);
      if k == 0 then None else TryGap(head, c, s, p, k)
  }

  /** At one position: the widest gap that leaves a non-empty class run, then
      the longest run; none when the expression does not fit there. */
  lemma MatchAtSpec(head: string, c: CharClass, s: string, p: nat)
    requires p <= |s|
    ensures var m := MatchAt(head, c, s, p);
      && (m.Some? ==> m.value.at == p && Accepts(head, c, s, p, m.value.gap, m.value.len))
      && (m.Some? ==> forall g: nat, l: nat :: m.value.gap < g ==> !Accepts(head, c, s, p, g, l))
      && (m.Some? ==> forall l: nat :: m.value.len < l ==> !Accepts(head, c, s, p, m.value.gap, l))
      && (m.None? ==> forall g: nat, l: nat :: !Accepts(head, c, s, p, g, l))
  {
    if OccursAt(s, head, p) {
      var i := p + |head|;
      var k := RunLength(Space, s, i);
      var m := MatchAt(head, c, s, p);
      if k > 0 {
        TryGapSpec(head, c, s, p, k);
      }
      forall g: nat, l: nat ensures Fits(c, s, i, g, l) <==>
        1 <= g <= k && 1 <= l <= RunLength(c, s, i + g)
      {
        FitsIff(c, s, i, g, l);
      }
      if m.Some? {
        assert Fits(c, s, i, m.value.gap, m.value.len);
      }
    }
  }

  /** The scan of `re.search`: positions `p`, `p + 1`, ... in turn. */
  function SearchFrom(head: string, c: CharClass, s: string, p: nat): Option<Span>
    requires p <= |s|
    decreases |s| - p
  {
    var here := MatchAt(head, c, s, p);
    if here.Some? then here
    else if p == |s| then None
    else SearchFrom(head, c, s, p + 1)
  }

  /** The scan from `p` reports the first position at or after `p` where the
      expression fits, with the gap and run Python's backtracking reaches
      first there; none when it fits nowhere from `p` on. */
  lemma {:induction false} SearchFromSpec(head: string, c: CharClass, s: string, p: nat)
    requires p <= |s|
    ensures var m := SearchFrom(head, c, s, p);
      && (m.Some? ==> p <= m.value.at && Accepts(head, c, s, m.value.at, m.value.gap, m.value.len))
      && (m.Some? ==> forall g: nat, l: nat :: m.value.gap < g ==> !Accepts(head, c, s, m.value.at, g, l))
      && (m.Some? ==> forall l: nat :: m.value.len < l ==> !Accepts(head, c, s, m.value.at, m.value.gap, l))
      && (m.Some? ==> forall q: nat, g: nat, l: nat :: p <= q < m.value.at ==> !Accepts(head, c, s, q, g, l))
      && (m.None? ==> forall q: nat, g: nat, l: nat :: p <= q ==> !Accepts(head, c, s, q, g, l))
    decreases |s| - p
  {
    MatchAtSpec(head, c, s, p);
    if MatchAt(head, c, s, p).None? {
      if p < |s| {
        SearchFromSpec(head, c, s, p + 1);
      } else {
        forall q: nat, g: nat, l: nat | p <= q ensures !Accepts(head, c, s, q, g, l) {
          if q > p {
            assert q + |head| + g + l > |s|;
          }
        }
      }
    }
  }

  /** `re.search(head\s+(C+), s)`: the scan from the start of the text. */
  function Search(head: string, c: CharClass, s: string): Option<Span> {
    SearchFrom(head, c, s, 0)
  }

  /** `match.group(1)` of `re.search(head\s+(C+), s)`, if there is a match. */
  function FirstCapture(head: string, c: CharClass, s: string): Option<string> {
    match Search(head, c, s)
    case None => None
    case Some(m) =>
      SearchFromSpec(head, c, s, 0);
      var lo := m.at + |head| + m.gap;
      Some(s[lo..lo + m.len])
  }

  /** The match `re.search` reports is the leftmost one, and at its position
      the one Python's backtracking order reaches first: the widest gap that
      leaves a non-empty class run, then the longest run; there is none
      exactly when no position, gap and run fit the expression. */
  lemma SearchIsLeftmost(head: string, c: CharClass, s: string)
    ensures var m := Search(head, c, s);
      && (m.Some? ==> Accepts(head, c, s, m.value.at, m.value.gap, m.value.len))
      && (m.Some? ==> forall q: nat, g: nat, l: nat :: q < m.value.at ==> !Accepts(head, c, s, q, g, l))
      && (m.Some? ==> forall g: nat, l: nat :: m.value.gap < g ==> !Accepts(head, c, s, m.value.at, g, l))
      && (m.Some? ==> forall l: nat :: m.value.len < l ==> !Accepts(head, c, s, m.value.at, m.value.gap, l))
      && (m.None? <==> forall q: nat, g: nat, l: nat :: !Accepts(head, c, s, q, g, l))
  {
    SearchFromSpec(head, c, s, 0);
    var m := SearchFrom(head, c, s, 0);
    if m.Some? {
      assert Accepts(head, c, s, m.value.at, m.value.gap, m.value.len);
    }
  }

  /** The first capture is a non-empty run of class characters, and there is
      one exactly when the expression matches somewhere. */
  lemma FirstCaptureInClass(head: string, c: CharClass, s: string)
    ensures var r := FirstCapture(head, c, s);
      && (r.Some? ==> r.value != [] && forall i :: 0 <= i < |r.value| ==> InClass(c, r.value[i]))
      && (r.None? <==> forall q: nat, g: nat, l: nat :: !Accepts(head, c, s, q, g, l))
  {
    SearchIsLeftmost(head, c, s);
    var m := Search(head, c, s);
    if m.Some? {
      var lo := m.value.at + |head| + m.value.gap;
      var r := s[lo..lo + m.value.len];
      assert AllIn(c, s, lo, lo + m.value.len);
      forall i | 0 <= i < |r| ensures InClass(c, r[i]) {
        assert r[i] == s[lo + i];
      }
    }
  }

  /** A run of class characters from `lo` cannot reach past a character
      outside the class. */
  lemma RunBound(c: CharClass, s: string, lo: nat, n: nat, k: nat)
    requires lo + n <= |s| && AllIn(c, s, lo, lo + n)
    requires lo + k < |s| && !InClass(c, s[lo + k])
    ensures n <= k
  {
  }

  /** A match at the first occurrence of the label is the leftmost one. */
  lemma SearchAtFirstLabel(head: string, c: CharClass, s: string, p: nat, gap: nat, len: nat)
    requires Find(s, head) == Some(p) && Accepts(head, c, s, p, gap, len)
    ensures Search(head, c, s).Some? && Search(head, c, s).value.at == p
  {
    SearchIsLeftmost(head, c, s);
    var sp := Search(head, c, s).value;
    assert Accepts(head, c, s, sp.at, sp.gap, sp.len);
    assert OccursAt(s, head, sp.at);
  }

  /** The capture is fixed by a match at the first occurrence of the label
      whose white-space gap and class run both stop at a character outside
      their class. */
  lemma CaptureAt(head: string, c: CharClass, s: string, p: nat, gap: nat, len: nat)
    requires Find(s, head) == Some(p) && Accepts(head, c, s, p, gap, len)
    requires p + |head| + gap < |s| && !InClass(Space, s[p + |head| + gap])
    requires p + |head| + gap + len < |s| ==> !InClass(c, s[p + |head| + gap + len])
    ensures FirstCapture(head, c, s) == Some(s[p + |head| + gap..p + |head| + gap + len])
  {
    SearchAtFirstLabel(head, c, s, p, gap, len);
    SearchIsLeftmost(head, c, s);
    var sp := Search(head, c, s).value;
    RunBound(Space, s, p + |head|, sp.gap, gap);
    assert sp.gap == gap;
    var q := p + |head| + gap;
    if q + len < |s| {
      RunBound(c, s, q, sp.len, len);
    }
    assert sp.len == len;
  }

  /** The stripped first capture is made of class characters; for a class
      without white space it is the whole, non-empty capture. */
  lemma StrippedCapture(head: string, c: CharClass, s: string)
    requires FirstCapture(head, c, s).Some?
    ensures var v := Strip(FirstCapture(head, c, s).value);
      forall i :: 0 <= i < |v| ==> InClass(c, v[i])
    ensures c in {Digit, DateChar} ==>
      Strip(FirstCapture(head, c, s).value) == FirstCapture(head, c, s).value != []
  {
    FirstCaptureInClass(head, c, s);
    var g := FirstCapture(head, c, s).value;
    ClassOfStrip(c, g);
    if c in {Digit, DateChar} {
      assert NoSpace(g) by {
        forall i | 0 <= i < |g| ensures !IsSpace(g[i]) {
          assert InClass(c, g[i]);
        }
      }
      StripNoSpace(g);
    }
  }

  /** Stripping keeps a string within its class. */
  lemma ClassOfStrip(c: CharClass, g: string)
    requires forall i :: 0 <= i < |g| ==> InClass(c, g[i])
    ensures var v := Strip(g); forall i :: 0 <= i < |v| ==> InClass(c, v[i])
  {
    var v := Strip(g);
    StripInfix(g);
    var lo := LeadingSpaces(g);
    forall i | 0 <= i < |v| ensures InClass(c, v[i]) {
      assert v[i] == g[lo + i];
    }
  }
}
