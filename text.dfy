/**
 * The string operations of Python's `str` that the extraction layer relies
 * on: `isspace`, `strip`, `find`, `replace(old, "")`, `split` and `join`.
 * Strings are sequences of Unicode scalar values, close to Python's code
 * points.
 */
module Text {

  import opened Wrappers

  /** Python's `str.isspace()` for one character; it is also what `\s` and a
      bare `strip()` treat as white space. */
  predicate IsSpace(c: char) {
    ('\t' <= c <= '\r') || ('\U{1c}' <= c <= ' ') || c == '\U{85}' || c == '\U{a0}'
    || c == '\U{1680}' || ('\U{2000}' <= c <= '\U{200a}') || c == '\U{2028}' || c == '\U{2029}'
    || c == '\U{202f}' || c == '\U{205f}' || c == '\U{3000}'
  }

  /** The ASCII digits; Python's `\d` accepts these (and other decimal digits
      of Unicode, which this model does not list). */
  predicate IsDigit(c: char) {
    '0' <= c <= '9'
  }

  predicate NoSpace(s: string) {
    forall i :: 0 <= i < |s| ==> !IsSpace(s[i])
  }

  /** `s.lstrip()`: drops the leading white space and nothing else. */
  function TrimStart(s: string): (r: string)
    ensures |r| <= |s| && r == s[|s| - |r|..]
    ensures forall i :: 0 <= i < |s| - |r| ==> IsSpace(s[i])
    ensures r == [] || !IsSpace(r[0])
  {
    if s != [] && IsSpace(s[0]) then TrimStart(s[1..]) else s
  }

  /** `s.rstrip()`: drops the trailing white space and nothing else. */
  function TrimEnd(s: string): (r: string)
    ensures |r| <= |s| && r == s[..|r|]
    ensures forall i :: |r| <= i < |s| ==> IsSpace(s[i])
    ensures r == [] || !IsSpace(r[|r| - 1])
  {
    if s != [] && IsSpace(s[|s| - 1]) then TrimEnd(s[..|s| - 1]) else s
  }

  /** `s.strip()`: white space removed at both ends. */
  function Strip(s: string): (r: string)
    ensures |r| <= |s|
    ensures r == [] || (!IsSpace(r[0]) && !IsSpace(r[|r| - 1]))
  {
    TrimEnd(TrimStart(s))
  }

  /** What `strip` removes is white space, at the two ends only: the result
      is the infix of `s` after its leading white space, followed in `s` by
      nothing but white space; an empty result means `s` was all white space. */
  lemma StripInfix(s: string)
    ensures var r := Strip(s);
      && LeadingSpaces(s) + |r| <= |s|
      && r == s[LeadingSpaces(s)..LeadingSpaces(s) + |r|]
      && (forall i :: LeadingSpaces(s) + |r| <= i < |s| ==> IsSpace(s[i]))
      && (r == [] ==> forall i :: 0 <= i < |s| ==> IsSpace(s[i]))
  {
    var t := TrimStart(s);
    var r := TrimEnd(t);
    assert t == s[|s| - |t|..];
    assert r == t[..|r|];
    forall i | |s| - |t| + |r| <= i < |s| ensures IsSpace(s[i]) {
      assert s[i] == t[i - (|s| - |t|)];
    }
  }

  /** The number of white-space characters `strip` removes at the front. */
  function LeadingSpaces(s: string): (n: nat)
    ensures n <= |s| && forall i :: 0 <= i < n ==> IsSpace(s[i])
    ensures n < |s| ==> !IsSpace(s[n])
  {
    |s| - |TrimStart(s)|
  }

  /** Stripping a string without white space leaves it as it is. */
  lemma StripNoSpace(s: string)
    requires NoSpace(s)
    ensures Strip(s) == s
  {
    if s != [] {
      assert !IsSpace(s[0]) && !IsSpace(s[|s| - 1]);
    }
  }

  /** `m` occurs in `s` at position `i`. */
  predicate OccursAt(s: string, m: string, i: nat) {
    i + |m| <= |s| && s[i..i + |m|] == m
  }

  /** `s.find(m, i)`, with `None` for Python's -1. */
  function FindFrom(s: string, m: string, i: nat): (r: Option<nat>)
    requires i <= |s|
    ensures r.Some? ==> i <= r.value && OccursAt(s, m, r.value)
    ensures r.Some? ==> forall j: nat :: i <= j < r.value ==> !OccursAt(s, m, j)
    ensures r.None? ==> forall j: nat :: i <= j ==> !OccursAt(s, m, j)
    decreases |s| - i
  {
    if OccursAt(s, m, i) then Some(i)
    else if i + |m| >= |s| then None
    else FindFrom(s, m, i + 1)
  }

  /** `s.find(m)`: the first position at which `m` occurs, if any. */
  function Find(s: string, m: string): (r: Option<nat>)
    ensures r.Some? ==> OccursAt(s, m, r.value) && forall j: nat :: j < r.value ==> !OccursAt(s, m, j)
    ensures r.None? <==> forall j: nat :: !OccursAt(s, m, j)
  {
    FindFrom(s, m, 0)
  }

  /** When the first character of `sep` does not occur in `a`, the first
      occurrence of `sep` in `a + sep + b` is the one right after `a`. */
  lemma {:induction false} FindAfterFree(a: string, sep: string, b: string)
    requires sep != [] && forall i :: 0 <= i < |a| ==> a[i] != sep[0]
    ensures Find(a + sep + b, sep) == Some(|a|)
  {
    var s := a + sep + b;
    assert s[|a|..|a| + |sep|] == sep;
    assert OccursAt(s, sep, |a|);
    forall j: nat | j < |a|
      ensures !OccursAt(s, sep, j)
    {
      assert s[j] == a[j];
      if j + |sep| <= |s| {
        assert s[j..j + |sep|][0] == s[j];
      }
    }
  }

  /** `s.replace(m, "")`: every occurrence found by a left-to-right,
      non-overlapping scan is deleted; replacing the empty string by the empty
      string changes nothing. */
  function RemoveAll(s: string, m: string): (r: string)
    ensures |r| <= |s|
    decreases |s|
  {
    if m == [] || |s| < |m| then s
    else if s[..|m|] == m then RemoveAll(s[|m|..], m)
    else [s[0]] + RemoveAll(s[1..], m)
  }

  /** `s.split(m)`: the pieces between the occurrences of `m`, scanning left
      to right without overlap. Python refuses an empty separator. */
  function Split(s: string, m: string): (r: seq<string>)
    requires m != []
    ensures |r| >= 1
    decreases |s|
  {
    match Find(s, m)
    case None => [s]
    case Some(i) => [s[..i]] + Split(s[i + |m|..], m)
  }

  /** `sep.join(parts)`. */
  function Join(parts: seq<string>, sep: string): string {
    if parts == [] then []
    else if |parts| == 1 then parts[0]
    else parts[0] + sep + Join(parts[1..], sep)
  }

  /** Where part `k` starts in `Join(parts, sep)`: the lengths of the
      earlier parts, each followed by one separator. */
  function PartStart(parts: seq<string>, sep: string, k: nat): nat
    requires k <= |parts|
  {
    if k == 0 then 0 else PartStart(parts, sep, k - 1) + |parts[k - 1]| + |sep|
  }

  /** Dropping the first part moves every later part back by that part and
      one separator. */
  lemma {:induction false} PartStartTail(parts: seq<string>, sep: string, k: nat)
    requires 1 <= k <= |parts|
    ensures PartStart(parts, sep, k) == |parts[0]| + |sep| + PartStart(parts[1..], sep, k - 1)
  {
    if k > 1 {
      PartStartTail(parts, sep, k - 1);
      assert parts[1..][k - 2] == parts[k - 1];
    }
  }

  /** A slice past the first `|a|` characters of `a + b` is a slice of `b`. */
  lemma SliceAfter(a: string, b: string, lo: nat, hi: nat)
    requires lo <= hi <= |b|
    ensures (a + b)[|a| + lo..|a| + hi] == b[lo..hi]
  {
    assert forall i :: 0 <= i < hi - lo ==> (a + b)[|a| + lo..|a| + hi][i] == b[lo..hi][i];
  }

  /** `sep.join(parts)` of two parts or more is the first part, the separator
      and the join of the rest. */
  lemma JoinCons(parts: seq<string>, sep: string)
    requires |parts| > 1
    ensures Join(parts, sep) == parts[0] + (sep + Join(parts[1..], sep))
  {
  }

  /** In `sep.join(parts)` part `k` sits at `PartStart(parts, sep, k)`. */
  lemma {:induction false} JoinPlacesParts(parts: seq<string>, sep: string, k: nat)
    requires k < |parts|
    ensures PartStart(parts, sep, k) + |parts[k]| <= |Join(parts, sep)|
    ensures Join(parts, sep)[PartStart(parts, sep, k)..PartStart(parts, sep, k) + |parts[k]|] == parts[k]
    decreases |parts|
  {
    if |parts| == 1 {
    } else if k == 0 {
      JoinCons(parts, sep);
    } else {
      var rest := Join(parts[1..], sep);
      var at := PartStart(parts[1..], sep, k - 1);
      JoinCons(parts, sep);
      PartStartTail(parts, sep, k);
      JoinPlacesParts(parts[1..], sep, k - 1);
      assert parts[1..][k - 1] == parts[k];
      SliceAfter(parts[0] + sep, rest, at, at + |parts[k]|);
      assert parts[0] + (sep + rest) == (parts[0] + sep) + rest;
    }
  }

  /** In `sep.join(parts)` the separator follows every part but the last. */
  lemma {:induction false} JoinSeparates(parts: seq<string>, sep: string, k: nat)
    requires k + 1 < |parts|
    ensures PartStart(parts, sep, k + 1) <= |Join(parts, sep)|
    ensures Join(parts, sep)[PartStart(parts, sep, k + 1) - |sep|..PartStart(parts, sep, k + 1)] == sep
    decreases |parts|
  {
    JoinCons(parts, sep);
    var rest := Join(parts[1..], sep);
    if k == 0 {
      assert Join(parts, sep) == (parts[0] + sep) + rest;
      assert (parts[0] + sep)[|parts[0]|..] == sep;
    } else {
      var at := PartStart(parts[1..], sep, k);
      PartStartTail(parts, sep, k + 1);
      JoinSeparates(parts[1..], sep, k - 1);
      SliceAfter(parts[0] + sep, rest, at - |sep|, at);
      assert parts[0] + (sep + rest) == (parts[0] + sep) + rest;
    }
  }

  /** `"".join(parts)`. */
  function Concat(parts: seq<string>): string {
    if parts == [] then [] else parts[0] + Concat(parts[1..])
  }

  /** Joining the pieces of a split with the separator gives back the text. */
  lemma {:induction false} JoinSplit(s: string, m: string)
    requires m != []
    ensures Join(Split(s, m), m) == s
    decreases |s|
  {
    match Find(s, m)
    case None =>
    case Some(i) =>
      var rest := s[i + |m|..];
      var tail := Split(rest, m);
      JoinSplit(rest, m);
      var parts := [s[..i]] + tail;
      assert Split(s, m) == parts;
      assert parts[1..] == tail;
      assert Join(parts, m) == s[..i] + m + rest;
      assert s[i..i + |m|] == m;
      assert s == s[..i] + s[i..i + |m|] + rest;
  }

  /** No piece of a split contains the separator. */
  lemma {:induction false} SplitPiecesFree(s: string, m: string)
    requires m != []
    ensures forall k :: 0 <= k < |Split(s, m)| ==> Find(Split(s, m)[k], m).None?
    decreases |s|
  {
    match Find(s, m)
    case None =>
    case Some(i) =>
      var rest := s[i + |m|..];
      SplitPiecesFree(rest, m);
      var head := s[..i];
      forall j: nat ensures !OccursAt(head, m, j) {
        if j + |m| <= |head| {
          assert j < i;
          assert !OccursAt(s, m, j);
          assert forall k :: j <= k < j + |m| ==> head[k] == s[k];
          assert head[j..j + |m|] == s[j..j + |m|];
        }
      }
      assert Split(s, m) == [head] + Split(rest, m);
  }

  /** Before the first occurrence of `m`, `replace` copies the text. */
  lemma {:induction false} RemoveAllPrefix(s: string, m: string, i: nat)
    requires m != [] && i <= |s|
    requires forall j: nat :: j < i ==> !OccursAt(s, m, j)
    ensures RemoveAll(s, m) == s[..i] + RemoveAll(s[i..], m)
    decreases i
  {
    if i > 0 {
      assert !OccursAt(s, m, 0);
      if |s| < |m| {
        assert s[..i] + s[i..] == s;
        assert RemoveAll(s[i..], m) == s[i..];
      } else {
        assert s[..|m|] != m;
        var t := s[1..];
        forall j: nat | j < i - 1 ensures !OccursAt(t, m, j) {
          assert !OccursAt(s, m, j + 1);
          if j + |m| <= |t| {
            assert t[j..j + |m|] == s[j + 1..j + 1 + |m|];
          }
        }
        RemoveAllPrefix(t, m, i - 1);
        assert t[i - 1..] == s[i..];
        assert [s[0]] + t[..i - 1] == s[..i];
      }
    }
  }

  /** `s.replace(m, "") == "".join(s.split(m))`: `replace` deletes exactly
      the occurrences that `split` cuts at. */
  lemma {:induction false} RemoveAllIsConcatOfSplit(s: string, m: string)
    requires m != []
    ensures RemoveAll(s, m) == Concat(Split(s, m))
    decreases |s|
  {
    match Find(s, m)
    case None =>
      RemoveAllPrefix(s, m, |s|);
      assert s[..|s|] == s;
      assert RemoveAll(s[|s|..], m) == [];
    case Some(i) =>
      RemoveAllPrefix(s, m, i);
      var rest := s[i + |m|..];
      assert s[i..][..|m|] == m;
      assert s[i..][|m|..] == rest;
      RemoveAllIsConcatOfSplit(rest, m);
  }

  /** After the only occurrence of `m`, the text splits into a single piece. */
  lemma OnlyOccurrence(s: string, m: string, i: nat)
    requires m != [] && OccursAt(s, m, i)
    requires forall j: nat :: j != i ==> !OccursAt(s, m, j)
    ensures Concat(Split(s[i + |m|..], m)) == s[i + |m|..]
  {
    NoneAfter(s, m, i, s[i + |m|..]);
    SplitOfFree(s[i + |m|..], m);
  }

  /** Past its only occurrence, `m` does not occur any more. */
  lemma NoneAfter(s: string, m: string, i: nat, rest: string)
    requires m != [] && OccursAt(s, m, i) && rest == s[i + |m|..]
    requires forall j: nat :: j != i ==> !OccursAt(s, m, j)
    ensures forall j: nat :: !OccursAt(rest, m, j)
  {
    forall j: nat ensures !OccursAt(rest, m, j) {
      assert !OccursAt(s, m, i + |m| + j);
      if j + |m| <= |rest| {
        assert rest[j..j + |m|] == s[i + |m| + j..i + |m| + j + |m|];
      }
    }
  }

  /** A text free of `m` splits into itself alone. */
  lemma SplitOfFree(s: string, m: string)
    requires m != [] && forall j: nat :: !OccursAt(s, m, j)
    ensures Split(s, m) == [s] && Concat(Split(s, m)) == s
  {
    assert Find(s, m).None?;
    assert Concat([s]) == s + Concat([]);
  }
}
